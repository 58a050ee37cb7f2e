/** The record a buffer frame carries, and facts about sequences of frames:
    how many are unpinned, and which frame (if any) holds a given block. */
module Frames {

  datatype Option<+T> = None | Some(value: T)

  /** A disk block: a file name and a block number within that file. */
  datatype Block = Block(fileName: string, number: int)

  /** One buffer frame. `block` is None while the frame is unassigned;
      `timeAdded` and `timeAccessed` are the logical times of the last pin and
      the last unpin (0 = never); `modifiedBy` is the transaction that dirtied
      the frame, None when it is clean. */
  datatype Frame = Frame(
    block: Option<Block>,
    pins: nat,
    timeAdded: nat,
    timeAccessed: nat,
    modifiedBy: Option<nat>)

  /** A newly created frame: unassigned, unpinned, never stamped, clean. */
  const EmptyFrame := Frame(None, 0, 0, 0, None)

  predicate HoldsBlock(f: Frame, blk: Block) {
    f.block == Some(blk)
  }

  predicate IsModifiedBy(f: Frame, txnum: int) {
    f.modifiedBy.Some? && f.modifiedBy.value == txnum
  }

  /** The number of frames whose pin count is zero. */
  function CountUnpinned(fs: seq<Frame>): (c: nat)
    ensures c <= |fs|
  {
    if fs == [] then 0
    else (if fs[0].pins == 0 then 1 else 0) + CountUnpinned(fs[1..])
  }

  /** Replacing one frame changes the count only by that frame's own status. */
  lemma {:induction false} CountUnpinnedUpdate(fs: seq<Frame>, i: nat, f: Frame)
    requires i < |fs|
    ensures CountUnpinned(fs[i := f]) ==
            CountUnpinned(fs) - (if fs[i].pins == 0 then 1 else 0) + (if f.pins == 0 then 1 else 0)
  {
    if i == 0 {
      assert fs[i := f][1..] == fs[1..];
    } else {
      assert fs[i := f][1..] == fs[1..][i - 1 := f];
      CountUnpinnedUpdate(fs[1..], i - 1, f);
    }
  }

  /** The count only depends on which frames are pinned. */
  lemma {:induction false} CountUnpinnedSamePins(fs: seq<Frame>, gs: seq<Frame>)
    requires |fs| == |gs|
    requires forall i :: 0 <= i < |fs| ==> fs[i].pins == gs[i].pins
    ensures CountUnpinned(fs) == CountUnpinned(gs)
  {
    if fs != [] {
      CountUnpinnedSamePins(fs[1..], gs[1..]);
    }
  }

  /** No unpinned frame is counted exactly when every frame is pinned. */
  lemma {:induction false} CountUnpinnedZero(fs: seq<Frame>)
    ensures CountUnpinned(fs) == 0 <==> forall i :: 0 <= i < |fs| ==> fs[i].pins > 0
  {
    if fs != [] {
      CountUnpinnedZero(fs[1..]);
      if CountUnpinned(fs) == 0 {
        forall i | 0 <= i < |fs| ensures fs[i].pins > 0 {
          if i > 0 { assert fs[i] == fs[1..][i - 1]; }
        }
      } else if fs[0].pins > 0 {
        var j :| 0 <= j < |fs[1..]| && fs[1..][j].pins == 0;
        assert fs[j + 1].pins == 0;
      }
    }
  }

  /** Every frame is counted exactly when every frame is unpinned. */
  lemma {:induction false} CountUnpinnedAll(fs: seq<Frame>)
    ensures CountUnpinned(fs) == |fs| <==> forall i :: 0 <= i < |fs| ==> fs[i].pins == 0
  {
    if fs != [] {
      CountUnpinnedAll(fs[1..]);
      if CountUnpinned(fs) == |fs| {
        forall i | 0 <= i < |fs| ensures fs[i].pins == 0 {
          if i > 0 { assert fs[i] == fs[1..][i - 1]; }
        }
      } else if fs[0].pins == 0 {
        var j :| 0 <= j < |fs[1..]| && fs[1..][j].pins != 0;
        assert fs[j + 1].pins != 0;
      }
    }
  }

  /** Some frame holds `blk`. */
  ghost predicate Resident(fs: seq<Frame>, blk: Block) {
    exists i :: 0 <= i < |fs| && HoldsBlock(fs[i], blk)
  }

  /** `r` is what a first-match scan for `blk` yields: the lowest slot holding
      it, or None when no slot does. */
  ghost predicate IsFirstHolding(fs: seq<Frame>, blk: Block, r: Option<nat>) {
    match r
    case None => forall i :: 0 <= i < |fs| ==> !HoldsBlock(fs[i], blk)
    case Some(v) =>
      v < |fs| && HoldsBlock(fs[v], blk) &&
      forall i :: 0 <= i < v ==> !HoldsBlock(fs[i], blk)
  }

  /** No block is cached in two frames. */
  ghost predicate NoDuplicates(fs: seq<Frame>) {
    forall i, j :: 0 <= i < |fs| && 0 <= j < |fs| && fs[i].block.Some? && fs[i].block == fs[j].block ==> i == j
  }

  /** Without duplicates, the frame a lookup finds is the only frame holding
      the block. */
  lemma FirstHoldingIsOnly(fs: seq<Frame>, blk: Block, v: nat)
    requires NoDuplicates(fs)
    requires IsFirstHolding(fs, blk, Some(v))
    ensures forall i :: 0 <= i < |fs| && HoldsBlock(fs[i], blk) ==> i == v
  {
  }

  /** Giving frame `i` a block that no other frame holds keeps the pool free
      of duplicates. */
  lemma AssignKeepsNoDuplicates(fs: seq<Frame>, i: nat, f: Frame)
    requires NoDuplicates(fs) && i < |fs|
    requires f.block.Some? ==> forall j :: 0 <= j < |fs| && j != i ==> fs[j].block != f.block
    ensures NoDuplicates(fs[i := f])
  {
  }
}
