/** What each victim-selection strategy of the buffer manager must return,
    stated over the frame records, independently of the scanning loops that
    compute it. */
module Strategies {
  import opened Frames

  /** Strategy codes accepted by `setStrategy`. */
  const Naive: int := 0
  const FIFO: int := 1
  const LRU: int := 2
  const Clock: int := 3

  predicate IsStrategy(s: int) {
    Naive <= s <= Clock
  }

  /** The initial `min` of the FIFO and LRU scans: stamps at or above it are
      never taken as the minimum. */
  const Sentinel: nat := 1_000_000_000_000_000

  /** Which timestamp a timed strategy compares: FIFO uses the time of the
      last pin, LRU the time of the last unpin. */
  datatype Stamp = Added | Accessed

  function StampOf(f: Frame, which: Stamp): nat {
    match which
    case Added => f.timeAdded
    case Accessed => f.timeAccessed
  }

  /** An unpinned frame whose stamp takes part in the minimum search. */
  predicate Eligible(f: Frame, which: Stamp) {
    f.pins == 0 && StampOf(f, which) != 0 && StampOf(f, which) < Sentinel
  }

  /** `r` is the lowest unpinned slot below `k`, or None when all of them are
      pinned. */
  ghost predicate IsFirstUnpinned(fs: seq<Frame>, k: nat, r: Option<nat>)
    requires k <= |fs|
  {
    match r
    case None => forall i :: 0 <= i < k ==> fs[i].pins > 0
    case Some(v) => v < k && fs[v].pins == 0 && forall i :: 0 <= i < v ==> fs[i].pins > 0
  }

  /** Slot `v` below `k` has the smallest eligible stamp among the slots below
      `k`, and every earlier eligible slot has a strictly larger one. */
  ghost predicate IsOldestStamped(fs: seq<Frame>, k: nat, which: Stamp, v: nat)
    requires k <= |fs|
  {
    v < k && Eligible(fs[v], which) &&
    (forall i :: 0 <= i < k && Eligible(fs[i], which) ==> StampOf(fs[v], which) <= StampOf(fs[i], which)) &&
    (forall i :: 0 <= i < v && Eligible(fs[i], which) ==> StampOf(fs[v], which) < StampOf(fs[i], which))
  }

  /** The FIFO/LRU choice among the slots below `k`: the oldest eligible slot
      if there is one, and otherwise the first unpinned slot. */
  ghost predicate IsTimedVictim(fs: seq<Frame>, k: nat, which: Stamp, r: Option<nat>)
    requires k <= |fs|
  {
    if exists i :: 0 <= i < k && Eligible(fs[i], which) then
      r.Some? && IsOldestStamped(fs, k, which, r.value)
    else
      IsFirstUnpinned(fs, k, r)
  }

  /** The position of slot `i` in the circular order that starts at `pointer`. */
  function ClockDistance(pointer: nat, i: nat, n: nat): (d: nat)
    requires pointer <= n && i < n
    ensures d < n && SlotAt(pointer, d, n) == i
  {
    if i >= pointer then i - pointer else n - pointer + i
  }

  /** The slot at position `d` of the circular order that starts at `pointer`. */
  function SlotAt(pointer: nat, d: nat, n: nat): (i: nat)
    requires pointer <= n && d < n
    ensures i < n
  {
    if pointer + d < n then pointer + d else pointer + d - n
  }

  lemma SlotAtDistance(pointer: nat, d: nat, n: nat)
    requires pointer <= n && d < n
    ensures ClockDistance(pointer, SlotAt(pointer, d, n), n) == d
  {
  }

  /** `r` is the first unpinned slot in the order pointer, pointer + 1, ...,
      n - 1, 0, ..., pointer - 1, or None when every slot is pinned. */
  ghost predicate IsClockVictim(fs: seq<Frame>, pointer: nat, r: Option<nat>)
    requires pointer <= |fs|
  {
    match r
    case None => forall i :: 0 <= i < |fs| ==> fs[i].pins > 0
    case Some(v) =>
      v < |fs| && fs[v].pins == 0 &&
      forall i :: 0 <= i < |fs| && ClockDistance(pointer, i, |fs|) < ClockDistance(pointer, v, |fs|) ==> fs[i].pins > 0
  }

  /** What `chooseUnpinnedBuffer` must return under strategy code `s`. */
  ghost predicate IsVictim(fs: seq<Frame>, s: int, pointer: nat, r: Option<nat>)
    requires pointer <= |fs|
  {
    if s == Naive then IsFirstUnpinned(fs, |fs|, r)
    else if s == FIFO then IsTimedVictim(fs, |fs|, Added, r)
    else if s == LRU then IsTimedVictim(fs, |fs|, Accessed, r)
    else if s == Clock then IsClockVictim(fs, pointer, r)
    else r == None
  }

  /** Whatever the strategy, a victim is an unpinned frame. */
  lemma VictimIsUnpinned(fs: seq<Frame>, s: int, pointer: nat, v: nat)
    requires pointer <= |fs|
    requires IsVictim(fs, s, pointer, Some(v))
    ensures v < |fs| && fs[v].pins == 0
  {
  }

  /** A valid strategy finds no victim exactly when every frame is pinned; an
      unknown strategy code never finds one. */
  lemma VictimNoneIff(fs: seq<Frame>, s: int, pointer: nat, r: Option<nat>)
    requires pointer <= |fs|
    requires IsVictim(fs, s, pointer, r)
    ensures r.None? <==> !IsStrategy(s) || forall i :: 0 <= i < |fs| ==> fs[i].pins > 0
  {
    if s == FIFO || s == LRU {
      var which := if s == FIFO then Added else Accessed;
      if exists i :: 0 <= i < |fs| && Eligible(fs[i], which) {
        var i :| 0 <= i < |fs| && Eligible(fs[i], which);
        assert fs[i].pins == 0;
      }
    }
  }

  /** Each strategy's choice is determined by the frames and the pointer. */
  lemma VictimIsUnique(fs: seq<Frame>, s: int, pointer: nat, r1: Option<nat>, r2: Option<nat>)
    requires pointer <= |fs|
    requires IsVictim(fs, s, pointer, r1) && IsVictim(fs, s, pointer, r2)
    ensures r1 == r2
  {
    if s == Clock && r1.Some? && r2.Some? {
      var n := |fs|;
      assert SlotAt(pointer, ClockDistance(pointer, r1.value, n), n) == r1.value;
      assert SlotAt(pointer, ClockDistance(pointer, r2.value, n), n) == r2.value;
    }
  }

  /** Naive takes the lowest unpinned slot even when later frames are older. */
  lemma NaiveIgnoresTimes()
    ensures var fs := [Frame(None, 0, 9, 9, None), Frame(None, 0, 1, 1, None)];
            IsVictim(fs, Naive, 0, Some(0)) && !IsVictim(fs, Naive, 0, Some(1))
  {
  }

  /** FIFO over unpinned frames pinned at times 5, 2 and 8 takes the frame
      pinned at time 2. */
  lemma FIFOTakesOldestPin()
    ensures var fs := [Frame(None, 0, 5, 1, None), Frame(None, 0, 2, 3, None), Frame(None, 0, 8, 2, None)];
            forall r :: IsVictim(fs, FIFO, 0, r) <==> r == Some(1)
  {
    var fs := [Frame(None, 0, 5, 1, None), Frame(None, 0, 2, 3, None), Frame(None, 0, 8, 2, None)];
    assert Eligible(fs[1], Added);
    forall r | IsVictim(fs, FIFO, 0, r) ensures r == Some(1) {
      VictimIsUnique(fs, FIFO, 0, r, Some(1));
    }
  }

  /** LRU over unpinned frames last unpinned at times 5, 2 and 8 (pinned at
      times 1, 9 and 3) takes exactly the frame unpinned at time 2; once that
      frame is pinned again it is skipped and the frame unpinned at time 5 is
      taken. */
  lemma LRUTakesOldestUnpin()
    ensures var fs := [Frame(None, 0, 1, 5, None), Frame(None, 0, 9, 2, None), Frame(None, 0, 3, 8, None)];
            (forall r :: IsVictim(fs, LRU, 0, r) <==> r == Some(1)) &&
            var gs := [Frame(None, 0, 1, 5, None), Frame(None, 1, 9, 2, None), Frame(None, 0, 3, 8, None)];
            (forall r :: IsVictim(gs, LRU, 0, r) <==> r == Some(0))
  {
    var fs := [Frame(None, 0, 1, 5, None), Frame(None, 0, 9, 2, None), Frame(None, 0, 3, 8, None)];
    var gs := [Frame(None, 0, 1, 5, None), Frame(None, 1, 9, 2, None), Frame(None, 0, 3, 8, None)];
    assert gs == fs[1 := fs[1].(pins := 1)];
    assert Eligible(fs[1], Accessed);
    assert Eligible(gs[0], Accessed);
    forall r | IsVictim(fs, LRU, 0, r) ensures r == Some(1) {
      VictimIsUnique(fs, LRU, 0, r, Some(1));
    }
    forall r | IsVictim(gs, LRU, 0, r) ensures r == Some(0) {
      VictimIsUnique(gs, LRU, 0, r, Some(0));
    }
  }

  /** FIFO and LRU skip frames that were never stamped whenever some unpinned
      frame was. */
  lemma TimedSkipsUnstamped()
    ensures var fs := [Frame(None, 0, 0, 0, None), Frame(None, 0, 7, 7, None)];
            IsVictim(fs, FIFO, 0, Some(1)) && !IsVictim(fs, FIFO, 0, Some(0))
  {
    var fs := [Frame(None, 0, 0, 0, None), Frame(None, 0, 7, 7, None)];
    assert Eligible(fs[1], Added);
  }

  /** Clock in a pool of five whose frames 3 and 4 are pinned, with the pointer
      at 3, wraps around and takes frame 0. */
  lemma ClockWrapsAround()
    ensures var u := Frame(None, 0, 0, 0, None);
            var p := Frame(None, 1, 0, 0, None);
            var fs := [u, u, u, p, p];
            IsVictim(fs, Clock, 3, Some(0)) && !IsVictim(fs, Clock, 3, Some(1))
  {
    var u := Frame(None, 0, 0, 0, None);
    var p := Frame(None, 1, 0, 0, None);
    var fs := [u, u, u, p, p];
    assert ClockDistance(3, 0, 5) == 2;
    assert ClockDistance(3, 1, 5) == 3;
  }
}
