/** The buffer manager: a fixed array of frames, the count of unpinned frames,
    the active strategy code and the rotating clock pointer. A buffer handle
    is the index of its slot in the pool. Every public method is one atomic
    step. */
module BufferMgr {
  import opened Frames
  import opened Strategies

  class BasicBufferMgr {
    const pool: array<Frame>
    var numAvailable: int
    var strategy: int
    var buffPointer: int
    /** Logical clock standing in for wall-clock timestamps: advanced once per
        pin and once per unpin, so every stamp it hands out is at least 1. */
    var ticks: nat

    /** The class invariant: the available count is the number of unpinned
        frames, and the clock pointer stays within 0..n. */
    ghost predicate Valid()
      reads this, pool
    {
      numAvailable == CountUnpinned(pool[..]) &&
      0 <= buffPointer <= pool.Length
    }

    constructor (numbuffs: nat)
      ensures Valid()
      ensures fresh(pool) && pool.Length == numbuffs
      ensures forall i :: 0 <= i < numbuffs ==> pool[i] == EmptyFrame
      ensures NoDuplicates(pool[..])
      ensures numAvailable == numbuffs
      ensures strategy == Naive && buffPointer == 0 && ticks == 0
    {
      var frames := new Frame[numbuffs];
      var i := 0;
      while i < numbuffs
        invariant 0 <= i <= numbuffs
        invariant forall j :: 0 <= j < i ==> frames[j] == EmptyFrame
      {
        frames[i] := EmptyFrame;
        i := i + 1;
      }
      pool := frames;
      numAvailable := numbuffs;
      strategy := Naive;
      buffPointer := 0;
      ticks := 0;
      new;
      CountUnpinnedAll(pool[..]);
    }

    /** Flushes the frames dirtied by transaction `txnum`: their dirty mark is
        cleared (the disk write itself is not modelled) and nothing else
        changes. */
    method FlushAll(txnum: int)
      requires Valid()
      modifies pool
      ensures Valid()
      ensures forall i :: 0 <= i < pool.Length ==>
        pool[i] == if IsModifiedBy(old(pool[i]), txnum) then old(pool[i]).(modifiedBy := None) else old(pool[i])
    {
      ghost var before := pool[..];
      var i := 0;
      while i < pool.Length
        invariant 0 <= i <= pool.Length
        invariant forall j :: 0 <= j < i ==>
          pool[j] == if IsModifiedBy(before[j], txnum) then before[j].(modifiedBy := None) else before[j]
        invariant forall j :: i <= j < pool.Length ==> pool[j] == before[j]
      {
        if IsModifiedBy(pool[i], txnum) {
          pool[i] := pool[i].(modifiedBy := None);
        }
        i := i + 1;
      }
      CountUnpinnedSamePins(before, pool[..]);
    }

    /** Pins a frame to `blk`: the frame already holding it if there is one,
        otherwise the victim of the active strategy, reassigned to `blk`.
        Returns None, changing nothing, when the block is not resident and no
        victim is found. */
    method Pin(blk: Block) returns (r: Option<nat>)
      requires Valid()
      modifies this, pool
      ensures Valid()
      ensures strategy == old(strategy)
      ensures r.None? <==> !old(Resident(pool[..], blk)) && (!IsStrategy(strategy) || old(numAvailable) == 0)
      ensures r.None? ==>
        pool[..] == old(pool[..]) && numAvailable == old(numAvailable) &&
        buffPointer == old(buffPointer) && ticks == old(ticks)
      ensures old(Resident(pool[..], blk)) ==> IsFirstHolding(old(pool[..]), blk, r)
      ensures !old(Resident(pool[..], blk)) ==> IsVictim(old(pool[..]), strategy, old(buffPointer), r)
      ensures r.Some? ==> r.value < pool.Length
      ensures r.Some? ==>
        ticks == old(ticks) + 1 && buffPointer == r.value + 1 &&
        numAvailable == old(numAvailable) - (if old(pool[r.value].pins) == 0 then 1 else 0)
      ensures r.Some? ==>
        pool[r.value] == Frame(Some(blk), old(pool[r.value].pins) + 1, ticks, old(pool[r.value].timeAccessed),
                               if old(HoldsBlock(pool[r.value], blk)) then old(pool[r.value].modifiedBy) else None)
      ensures r.Some? ==> forall i :: 0 <= i < pool.Length && i != r.value ==> pool[i] == old(pool[i])
      ensures forall i :: 0 <= i < pool.Length && pool[i].block != old(pool[i].block) ==> old(pool[i].pins) == 0
      ensures old(NoDuplicates(pool[..])) ==> NoDuplicates(pool[..])
      ensures old(NoDuplicates(pool[..])) && old(Resident(pool[..], blk)) ==>
        r.Some? && forall i :: 0 <= i < pool.Length && old(HoldsBlock(pool[i], blk)) ==> i == r.value
    {
      ghost var before := pool[..];
      var idx: nat;
      var existing := FindExistingBuffer(blk);
      if existing.None? {
        var victim := ChooseUnpinnedBuffer();
        VictimNoneIff(before, strategy, buffPointer, victim);
        CountUnpinnedZero(before);
        if victim.None? {
          return None;
        }
        idx := victim.value;
        VictimIsUnpinned(before, strategy, buffPointer, idx);
        pool[idx] := pool[idx].(block := Some(blk), modifiedBy := None);
      } else {
        idx := existing.value;
        if NoDuplicates(before) {
          FirstHoldingIsOnly(before, blk, idx);
        }
      }
      if pool[idx].pins == 0 {
        numAvailable := numAvailable - 1;
      }
      ticks := ticks + 1;
      pool[idx] := pool[idx].(pins := pool[idx].pins + 1, timeAdded := ticks);
      buffPointer := idx + 1;
      r := Some(idx);
      assert pool[..] == before[idx := pool[idx]];
      CountUnpinnedUpdate(before, idx, pool[idx]);
      if NoDuplicates(before) {
        AssignKeepsNoDuplicates(before, idx, pool[idx]);
      }
    }

    /** Pins a frame to a block newly appended to file `filename`; the file
        store's append yields block number `newBlockNumber`. Returns None,
        changing nothing, when no victim is found. */
    method PinNew(filename: string, newBlockNumber: nat) returns (r: Option<nat>)
      requires Valid()
      modifies this, pool
      ensures Valid()
      ensures strategy == old(strategy)
      ensures IsVictim(old(pool[..]), strategy, old(buffPointer), r)
      ensures r.None? <==> !IsStrategy(strategy) || old(numAvailable) == 0
      ensures r.None? ==>
        pool[..] == old(pool[..]) && numAvailable == old(numAvailable) &&
        buffPointer == old(buffPointer) && ticks == old(ticks)
      ensures r.Some? ==>
        r.value < pool.Length && ticks == old(ticks) + 1 && buffPointer == r.value + 1 &&
        numAvailable == old(numAvailable) - 1 &&
        pool[r.value] == Frame(Some(Block(filename, newBlockNumber)), 1, ticks, old(pool[r.value].timeAccessed), None)
      ensures r.Some? ==> forall i :: 0 <= i < pool.Length && i != r.value ==> pool[i] == old(pool[i])
      ensures forall i :: 0 <= i < pool.Length && pool[i].block != old(pool[i].block) ==> old(pool[i].pins) == 0
      ensures old(NoDuplicates(pool[..])) && !old(Resident(pool[..], Block(filename, newBlockNumber))) ==>
        NoDuplicates(pool[..])
    {
      ghost var before := pool[..];
      var victim := ChooseUnpinnedBuffer();
      VictimNoneIff(before, strategy, buffPointer, victim);
      CountUnpinnedZero(before);
      if victim.None? {
        return None;
      }
      var idx := victim.value;
      VictimIsUnpinned(before, strategy, buffPointer, idx);
      pool[idx] := pool[idx].(block := Some(Block(filename, newBlockNumber)), modifiedBy := None);
      numAvailable := numAvailable - 1;
      ticks := ticks + 1;
      pool[idx] := pool[idx].(pins := pool[idx].pins + 1, timeAdded := ticks);
      buffPointer := idx + 1;
      r := Some(idx);
      assert pool[..] == before[idx := pool[idx]];
      CountUnpinnedUpdate(before, idx, pool[idx]);
      if NoDuplicates(before) && !Resident(before, Block(filename, newBlockNumber)) {
        AssignKeepsNoDuplicates(before, idx, pool[idx]);
      }
    }

    /** Releases one pin on frame `i`, stamping its unpin time; when the last
        pin goes, the frame becomes available and the clock pointer moves just
        past it. */
    method Unpin(i: nat)
      requires Valid()
      requires i < pool.Length && pool[i].pins > 0
      modifies this, pool
      ensures Valid()
      ensures strategy == old(strategy) && ticks == old(ticks) + 1
      ensures pool[i] == old(pool[i]).(pins := old(pool[i].pins) - 1, timeAccessed := ticks)
      ensures forall j :: 0 <= j < pool.Length && j != i ==> pool[j] == old(pool[j])
      ensures numAvailable == old(numAvailable) + (if pool[i].pins == 0 then 1 else 0)
      ensures buffPointer == if pool[i].pins == 0 then i + 1 else old(buffPointer)
    {
      ghost var before := pool[..];
      ticks := ticks + 1;
      pool[i] := pool[i].(pins := pool[i].pins - 1, timeAccessed := ticks);
      if pool[i].pins == 0 {
        numAvailable := numAvailable + 1;
        buffPointer := i + 1;
      }
      assert pool[..] == before[i := pool[i]];
      CountUnpinnedUpdate(before, i, pool[i]);
    }

    /** The number of unpinned frames; zero exactly when the pool is full. */
    method Available() returns (r: int)
      requires Valid()
      ensures 0 <= r <= pool.Length
      ensures r == CountUnpinned(pool[..])
      ensures r == 0 <==> forall i :: 0 <= i < pool.Length ==> pool[i].pins > 0
    {
      CountUnpinnedZero(pool[..]);
      r := numAvailable;
    }

    /** The lowest slot holding `blk`, or None. */
    method FindExistingBuffer(blk: Block) returns (r: Option<nat>)
      ensures IsFirstHolding(pool[..], blk, r)
      ensures r.None? <==> !Resident(pool[..], blk)
    {
      var i := 0;
      while i < pool.Length
        invariant 0 <= i <= pool.Length
        invariant forall j :: 0 <= j < i ==> !HoldsBlock(pool[j], blk)
      {
        var b := pool[i].block;
        if b.Some? && b.value == blk {
          return Some(i);
        }
        i := i + 1;
      }
      return None;
    }

    /** Dispatches on the strategy code; an unknown code finds no victim. */
    method ChooseUnpinnedBuffer() returns (r: Option<nat>)
      requires Valid()
      ensures IsVictim(pool[..], strategy, buffPointer, r)
    {
      if strategy == Naive {
        r := UseNaiveStrategy();
      } else if strategy == FIFO {
        r := UseFIFOStrategy();
      } else if strategy == LRU {
        r := UseLRUStrategy();
      } else if strategy == Clock {
        r := UseClockStrategy();
      } else {
        r := None;
      }
    }

    method SetStrategy(s: int)
      requires Valid()
      modifies this
      ensures Valid()
      ensures strategy == s
      ensures numAvailable == old(numAvailable) && buffPointer == old(buffPointer) && ticks == old(ticks)
    {
      strategy := s;
    }

    /** The first unpinned frame in slot order. */
    method UseNaiveStrategy() returns (r: Option<nat>)
      ensures IsFirstUnpinned(pool[..], pool.Length, r)
    {
      var i := 0;
      while i < pool.Length
        invariant 0 <= i <= pool.Length
        invariant forall j :: 0 <= j < i ==> pool[j].pins > 0
      {
        if pool[i].pins == 0 {
          return Some(i);
        }
        i := i + 1;
      }
      return None;
    }

    /** The scan shared by FIFO and LRU: the first unpinned frame is kept
        until an unpinned frame with a nonzero stamp strictly below the
        running minimum replaces it. */
    method UseTimedStrategy(which: Stamp) returns (r: Option<nat>)
      ensures IsTimedVictim(pool[..], pool.Length, which, r)
    {
      var min: int := Sentinel;
      r := None;
      var i := 0;
      while i < pool.Length
        invariant 0 <= i <= pool.Length
        invariant IsTimedVictim(pool[..], i, which, r)
        invariant min == if r.Some? && Eligible(pool[r.value], which) then StampOf(pool[r.value], which) else Sentinel
      {
        var buff := pool[i];
        if buff.pins == 0 {
          if r.None? {
            r := Some(i);
          }
          var t := StampOf(buff, which);
          if t != 0 {
            if min - t > 0 {
              min := t;
              r := Some(i);
            }
          }
        }
        i := i + 1;
      }
    }

    /** The unpinned frame with the oldest last-pin stamp. */
    method UseFIFOStrategy() returns (r: Option<nat>)
      ensures IsTimedVictim(pool[..], pool.Length, Added, r)
    {
      r := UseTimedStrategy(Added);
    }

    /** The unpinned frame with the oldest last-unpin stamp. */
    method UseLRUStrategy() returns (r: Option<nat>)
      ensures IsTimedVictim(pool[..], pool.Length, Accessed, r)
    {
      r := UseTimedStrategy(Accessed);
    }

    /** Copies the slots into circular order starting at the pointer, then
        takes the first unpinned one. */
    method UseClockStrategy() returns (r: Option<nat>)
      requires 0 <= buffPointer <= pool.Length
      ensures IsClockVictim(pool[..], buffPointer, r)
    {
      var n := pool.Length;
      var newPool := new nat[n];
      var index := 0;
      var i := buffPointer;
      while i < n
        invariant buffPointer <= i <= n
        invariant index == i - buffPointer
        invariant forall j :: 0 <= j < index ==> newPool[j] == SlotAt(buffPointer, j, n)
      {
        newPool[index] := i;
        index := index + 1;
        i := i + 1;
      }
      i := 0;
      while i < buffPointer
        invariant 0 <= i <= buffPointer
        invariant index == n - buffPointer + i
        invariant forall j :: 0 <= j < index ==> newPool[j] == SlotAt(buffPointer, j, n)
      {
        newPool[index] := i;
        index := index + 1;
        i := i + 1;
      }
      var k := 0;
      while k < n
        invariant 0 <= k <= n
        invariant forall j :: 0 <= j < k ==> pool[SlotAt(buffPointer, j, n)].pins > 0
      {
        var slot := newPool[k];
        if pool[slot].pins == 0 {
          r := Some(slot);
          forall j | 0 <= j < n && ClockDistance(buffPointer, j, n) < k
            ensures pool[j].pins > 0
          {
            assert SlotAt(buffPointer, ClockDistance(buffPointer, j, n), n) == j;
          }
          SlotAtDistance(buffPointer, k, n);
          return;
        }
        k := k + 1;
      }
      forall j | 0 <= j < n ensures pool[j].pins > 0 {
        assert SlotAt(buffPointer, ClockDistance(buffPointer, j, n), n) == j;
      }
      r := None;
    }
  }
}
