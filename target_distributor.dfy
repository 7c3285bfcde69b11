/**
 * The arc-slot allocator of the game's enemies (TargetDistributor.cs).
 *
 * A target (the player) keeps a ring of `arcsCount` arcs around itself; each
 * enemy that chases it holds a `TargetFollower` record and, while it asks for
 * one, is given an arc of its own so that enemies spread out instead of piling
 * up at one point. The arcs are a `bool` array (`true` = free) and the
 * followers a list; both are changed in place.
 *
 * Engine queries become inputs: the arcs towards which the ray cast hits an
 * obstacle form the set `blocked`,
 * and the arc index that the follower's wanted point rounds to
 * (`Mathf.RoundToInt(angle / arcDegree)`, a value in `[0, arcsCount]`) is
 * passed in as `rawWanted`.
 */
module TargetDistribution {
  import opened Lists

  /** An arc can be claimed when it exists, is free, and the ray towards it hits nothing. */
  predicate Available(free: seq<bool>, blocked: set<int>, i: int)
  {
    0 <= i < |free| && free[i] && i !in blocked
  }

  /** The rounded index can equal `n` (an angle just below 360 degrees); one subtraction wraps it. */
  function WrapWanted(raw: int, n: int): (w: int)
    requires 0 < n && 0 <= raw <= n
    ensures 0 <= w < n
    ensures w == raw % n
  {
    if raw >= n then raw - n else raw
  }

  /** Euclidean remainder of a value less than one period away from `[0, n)`. */
  lemma ModOfNearby(a: int, n: int)
    requires 0 < n && -n <= a < 2 * n
    ensures a % n == if a < 0 then a + n else if a >= n then a - n else a
  {
    assert a == n * (a / n) + a % n;
  }

  /** The arc `offset` steps to the left of `w`, wrapped with a single addition. */
  function LeftProbe(w: int, offset: int, n: int): (i: int)
    requires 0 <= w < n && 1 <= offset <= n / 2
    ensures 0 <= i < n
  {
    var i := w - offset;
    if i < 0 then i + n else i
  }

  /** The arc `offset` steps to the right of `w`, wrapped with a single subtraction. */
  function RightProbe(w: int, offset: int, n: int): (i: int)
    requires 0 <= w < n && 1 <= offset <= n / 2
    ensures 0 <= i < n
  {
    var i := w + offset;
    if i >= n then i - n else i
  }

  /** One addition or subtraction is enough: the probes are the neighbours of `w` modulo `n`. */
  lemma ProbesWrapModulo(w: int, offset: int, n: int)
    requires 0 <= w < n && 1 <= offset <= n / 2
    ensures LeftProbe(w, offset, n) == (w - offset) % n
    ensures RightProbe(w, offset, n) == (w + offset) % n
  {
    ModOfNearby(w - offset, n);
    ModOfNearby(w + offset, n);
  }

  /** How many arcs GetFreeArcIndex tries: the wanted one and `n / 2` on each side of it. */
  function ProbeCount(n: int): int
  {
    1 + 2 * (n / 2)
  }

  /** The `k`-th arc tried: the wanted one, then left and right of it at offset 1, 2, ... */
  function ProbeAt(w: int, n: int, k: int): (i: int)
    requires 0 <= w < n && 0 <= k < ProbeCount(n)
    ensures 0 <= i < n
  {
    if k == 0 then w
    else if k % 2 == 1 then LeftProbe(w, (k + 1) / 2, n)
    else RightProbe(w, k / 2, n)
  }

  /** At each offset the left neighbour is tried, then the right one. */
  lemma ProbeAtOffset(w: int, n: int, offset: int)
    requires 0 <= w < n && 1 <= offset <= n / 2
    ensures ProbeAt(w, n, 2 * offset - 1) == LeftProbe(w, offset, n)
    ensures ProbeAt(w, n, 2 * offset) == RightProbe(w, offset, n)
  {
    assert (2 * offset - 1) % 2 == 1 && (2 * offset - 1 + 1) / 2 == offset;
    assert (2 * offset) % 2 == 0 && (2 * offset) / 2 == offset;
  }

  /** The first available arc among the ones tried from the `k`-th on, or -1. */
  function SelectFrom(free: seq<bool>, blocked: set<int>, w: int, k: int): (r: int)
    requires 0 <= w < |free| && 0 <= k <= ProbeCount(|free|)
    ensures r == -1 || Available(free, blocked, r)
    decreases ProbeCount(|free|) - k
  {
    if k == ProbeCount(|free|) then -1
    else if Available(free, blocked, ProbeAt(w, |free|, k)) then ProbeAt(w, |free|, k)
    else SelectFrom(free, blocked, w, k + 1)
  }

  /** The arc GetFreeArcIndex claims for wanted arc `w`, or -1. */
  function SelectArc(free: seq<bool>, blocked: set<int>, w: int): (r: int)
    requires 0 <= w < |free|
    ensures r == -1 || Available(free, blocked, r)
  {
    SelectFrom(free, blocked, w, 0)
  }

  /** The arcs after a claim: the selected arc, if any, is marked taken. */
  function Claim(free: seq<bool>, blocked: set<int>, w: int): (free': seq<bool>)
    requires 0 <= w < |free|
    ensures |free'| == |free|
  {
    var r := SelectArc(free, blocked, w);
    if r == -1 then free else free[r := false]
  }

  /** The search from the `k`-th arc on answers -1 exactly when none of the arcs it tries is available. */
  lemma {:induction false} SelectFromNone(free: seq<bool>, blocked: set<int>, w: int, k: int)
    requires 0 <= w < |free| && 0 <= k <= ProbeCount(|free|)
    ensures SelectFrom(free, blocked, w, k) == -1 <==>
      forall m :: k <= m < ProbeCount(|free|) ==> !Available(free, blocked, ProbeAt(w, |free|, m))
    decreases ProbeCount(|free|) - k
  {
    if k < ProbeCount(|free|) && !Available(free, blocked, ProbeAt(w, |free|, k)) {
      SelectFromNone(free, blocked, w, k + 1);
    }
  }

  /** Otherwise it answers the `m`-th arc tried, for an `m` before which nothing was available. */
  lemma {:induction false} SelectFromFirst(free: seq<bool>, blocked: set<int>, w: int, k: int) returns (m: int)
    requires 0 <= w < |free| && 0 <= k <= ProbeCount(|free|)
    requires SelectFrom(free, blocked, w, k) != -1
    ensures k <= m < ProbeCount(|free|) && SelectFrom(free, blocked, w, k) == ProbeAt(w, |free|, m)
    ensures forall q :: k <= q < m ==> !Available(free, blocked, ProbeAt(w, |free|, q))
    decreases ProbeCount(|free|) - k
  {
    if Available(free, blocked, ProbeAt(w, |free|, k)) {
      m := k;
    } else {
      m := SelectFromFirst(free, blocked, w, k + 1);
    }
  }

  /** The wanted arc is taken if it can be; otherwise the search goes on from offset 1. */
  lemma SelectArcStart(free: seq<bool>, blocked: set<int>, w: int)
    requires 0 <= w < |free|
    ensures SelectArc(free, blocked, w) ==
      if Available(free, blocked, w) then w else SelectFrom(free, blocked, w, 1)
  {
  }

  /**
   * One round of the left/right search: the left neighbour at `offset` is
   * taken if it can be, else the right one, else the search moves one step out.
   */
  lemma SelectFromOffset(free: seq<bool>, blocked: set<int>, w: int, offset: int)
    requires 0 <= w < |free| && 1 <= offset <= |free| / 2
    ensures var left, right := LeftProbe(w, offset, |free|), RightProbe(w, offset, |free|);
      SelectFrom(free, blocked, w, 2 * offset - 1) ==
        if Available(free, blocked, left) then left
        else if Available(free, blocked, right) then right
        else SelectFrom(free, blocked, w, 2 * offset + 1)
  {
    ProbeAtOffset(w, |free|, offset);
  }

  /** Every arc of the ring is tried at some step, whatever the wanted arc. */
  lemma ProbeAtCoversEveryArc(w: int, n: int, j: int) returns (k: int)
    requires 0 <= w < n && 0 <= j < n
    ensures 0 <= k < ProbeCount(n) && ProbeAt(w, n, k) == j
  {
    if j == w {
      k := 0;
    } else if j > w && j - w <= n / 2 {
      ProbeAtOffset(w, n, j - w);
      k := 2 * (j - w);
    } else if j > w {
      ProbeAtOffset(w, n, n - (j - w));
      k := 2 * (n - (j - w)) - 1;
    } else if w - j <= n / 2 {
      ProbeAtOffset(w, n, w - j);
      k := 2 * (w - j) - 1;
    } else {
      ProbeAtOffset(w, n, n - (w - j));
      k := 2 * (n - (w - j));
    }
  }

  /** GetFreeArcIndex answers -1 exactly when no arc of the whole ring is available. */
  lemma SelectArcNoneIffRingExhausted(free: seq<bool>, blocked: set<int>, w: int)
    requires 0 <= w < |free|
    ensures SelectArc(free, blocked, w) == -1 <==>
      forall i :: 0 <= i < |free| ==> !Available(free, blocked, i)
  {
    SelectFromNone(free, blocked, w, 0);
    if SelectArc(free, blocked, w) == -1 {
      forall i | 0 <= i < |free| ensures !Available(free, blocked, i) {
        var k := ProbeAtCoversEveryArc(w, |free|, i);
      }
    }
  }

  /** A claim changes exactly the chosen arc, from free to taken. */
  lemma ClaimChangesOnlyChosen(free: seq<bool>, blocked: set<int>, w: int)
    requires 0 <= w < |free|
    ensures SelectArc(free, blocked, w) == -1 ==> Claim(free, blocked, w) == free
    ensures var r := SelectArc(free, blocked, w);
      r != -1 ==>
        && free[r] && r !in blocked && !Claim(free, blocked, w)[r]
        && forall i :: 0 <= i < |free| && i != r ==> Claim(free, blocked, w)[i] == free[i]
  {
  }

  // ---------------------------------------------------------------------------
  // LateUpdate as a fold over the follower list.

  /** The arcs and every follower's `assignedSlot`, as LateUpdate sees them. */
  datatype Allocation = Allocation(free: seq<bool>, slots: seq<int>)

  /** The per-follower inputs of one LateUpdate line up with the allocation. */
  predicate Fits(a: Allocation, require: seq<bool>, wanted: seq<int>, blocked: seq<set<int>>)
  {
    && 0 < |a.free|
    && |require| == |a.slots| && |wanted| == |a.slots| && |blocked| == |a.slots|
    && (forall i :: 0 <= i < |a.slots| ==> -1 <= a.slots[i] < |a.free|)
    && (forall i :: 0 <= i < |wanted| ==> 0 <= wanted[i] <= |a.free|)
  }

  /** The arcs once follower `i` has released the arc it holds (if any). */
  function Released(a: Allocation, i: int): (free: seq<bool>)
    requires 0 <= i < |a.slots| && -1 <= a.slots[i] < |a.free|
    ensures |free| == |a.free|
    ensures a.slots[i] != -1 ==> free[a.slots[i]]
    ensures forall j :: 0 <= j < |free| && j != a.slots[i] ==> free[j] == a.free[j]
  {
    if a.slots[i] != -1 then a.free[a.slots[i] := true] else a.free
  }

  /**
   * One iteration of LateUpdate's loop, for follower `i`, as the source has it:
   * a follower that does not ask for a slot keeps the `assignedSlot` whose arc
   * it has just released.
   */
  function FollowerStepAsWritten(a: Allocation, require: seq<bool>, wanted: seq<int>, blocked: seq<set<int>>, i: int): (a': Allocation)
    requires Fits(a, require, wanted, blocked) && 0 <= i < |a.slots|
    ensures Fits(a', require, wanted, blocked) && |a'.free| == |a.free|
    ensures forall j :: 0 <= j < |a.slots| && j != i ==> a'.slots[j] == a.slots[j]
    ensures !require[i] ==> a'.slots[i] == a.slots[i]
  {
    var free := Released(a, i);
    if require[i] then
      var w := WrapWanted(wanted[i], |free|);
      Allocation(Claim(free, blocked[i], w), a.slots[i := SelectArc(free, blocked[i], w)])
    else
      Allocation(free, a.slots)
  }

  /** LateUpdate's loop from follower `i` on, as the source has it. */
  function DistributeAsWritten(a: Allocation, require: seq<bool>, wanted: seq<int>, blocked: seq<set<int>>, i: nat): (a': Allocation)
    requires Fits(a, require, wanted, blocked) && i <= |a.slots|
    ensures Fits(a', require, wanted, blocked) && |a'.free| == |a.free|
    decreases |a.slots| - i
  {
    if i == |a.slots| then a
    else DistributeAsWritten(FollowerStepAsWritten(a, require, wanted, blocked, i), require, wanted, blocked, i + 1)
  }

  /** As written, a follower that does not ask for a slot comes out of LateUpdate with the `assignedSlot` it had. */
  lemma {:induction false} DistributeAsWrittenKeepsIdleSlots(a: Allocation, require: seq<bool>, wanted: seq<int>, blocked: seq<set<int>>, i: nat)
    requires Fits(a, require, wanted, blocked) && i <= |a.slots|
    ensures forall j :: 0 <= j < |a.slots| && (j < i || !require[j]) ==>
      DistributeAsWritten(a, require, wanted, blocked, i).slots[j] == a.slots[j]
    decreases |a.slots| - i
  {
    if i < |a.slots| {
      DistributeAsWrittenKeepsIdleSlots(FollowerStepAsWritten(a, require, wanted, blocked, i), require, wanted, blocked, i + 1);
    }
  }

  /**
   * The arcs are shared out properly: no two followers hold the same arc, and
   * every arc a follower holds is marked taken.
   */
  ghost predicate Exclusive(a: Allocation)
  {
    && (forall i :: 0 <= i < |a.slots| && a.slots[i] != -1 ==> 0 <= a.slots[i] < |a.free| && !a.free[a.slots[i]])
    && (forall i, j :: 0 <= i < j < |a.slots| && a.slots[i] != -1 ==> a.slots[i] != a.slots[j])
  }

  /**
   * As written, two followers that both ask for a slot can be given the same
   * arc. Two arcs; followers B, A, C in list order, every wanted point on arc 0
   * and no obstacle. Frame 1: only A asks and gets arc 0. Frame 2: A stops
   * asking and releases arc 0 but keeps `assignedSlot == 0`; B gets arc 1 and C
   * gets arc 0. Frame 3: all three ask; A releases arc 0 (which C holds) and
   * takes it, then C releases it and takes it again.
   */
  lemma AsWrittenGivesOneArcToTwoFollowers()
    ensures var clear := [{}, {}, {}];
      var wanted := [0, 0, 0];
      var start := Allocation([true, true], [-1, -1, -1]);
      var frame1 := DistributeAsWritten(start, [false, true, false], wanted, clear, 0);
      var frame2 := DistributeAsWritten(frame1, [true, false, true], wanted, clear, 0);
      var frame3 := DistributeAsWritten(frame2, [true, true, true], wanted, clear, 0);
      Exclusive(start) && frame3.slots == [1, 0, 0] && !Exclusive(frame3)
  {
    var clear: seq<set<int>> := [{}, {}, {}];
    var wanted := [0, 0, 0];
    var start := Allocation([true, true], [-1, -1, -1]);
    assert SelectArc([true, true], {}, 0) == 0;
    assert SelectArc([false, true], {}, 0) == 1;
    assert SelectArc([true, false], {}, 0) == 0;
    var frame1 := DistributeAsWritten(start, [false, true, false], wanted, clear, 0);
    assert frame1 == Allocation([false, true], [-1, 0, -1]);
    var frame2 := DistributeAsWritten(frame1, [true, false, true], wanted, clear, 0);
    assert frame2 == Allocation([false, false], [1, 0, 0]);
    var frame3 := DistributeAsWritten(frame2, [true, true, true], wanted, clear, 0);
    assert frame3 == Allocation([false, false], [1, 0, 0]);
  }

  /**
   * One iteration of LateUpdate's loop, corrected: the follower releases the arc
   * it holds, and then either is given the one GetFreeArcIndex claims or, when it
   * does not ask for one, is left with `assignedSlot == -1`, the value the field
   * is documented to hold when no arc is assigned.
   */
  function FollowerStep(a: Allocation, require: seq<bool>, wanted: seq<int>, blocked: seq<set<int>>, i: int): (a': Allocation)
    requires Fits(a, require, wanted, blocked) && 0 <= i < |a.slots|
    ensures Fits(a', require, wanted, blocked) && |a'.free| == |a.free|
    ensures forall j :: 0 <= j < |a.slots| && j != i ==> a'.slots[j] == a.slots[j]
    ensures !require[i] ==> a'.slots[i] == -1
  {
    var free := Released(a, i);
    if require[i] then
      var w := WrapWanted(wanted[i], |free|);
      Allocation(Claim(free, blocked[i], w), a.slots[i := SelectArc(free, blocked[i], w)])
    else
      Allocation(free, a.slots[i := -1])
  }

  /** LateUpdate's loop from follower `i` on, corrected. */
  function Distribute(a: Allocation, require: seq<bool>, wanted: seq<int>, blocked: seq<set<int>>, i: nat): (a': Allocation)
    requires Fits(a, require, wanted, blocked) && i <= |a.slots|
    ensures Fits(a', require, wanted, blocked) && |a'.free| == |a.free|
    decreases |a.slots| - i
  {
    if i == |a.slots| then a
    else Distribute(FollowerStep(a, require, wanted, blocked, i), require, wanted, blocked, i + 1)
  }

  /**
   * A follower that asks for a slot is refused (-1) exactly when, at its turn,
   * no arc of the ring is free and clear of obstacles.
   */
  lemma FollowerStepRefusesOnlyWhenFull(a: Allocation, require: seq<bool>, wanted: seq<int>, blocked: seq<set<int>>, i: int)
    requires Fits(a, require, wanted, blocked) && 0 <= i < |a.slots| && require[i]
    ensures FollowerStep(a, require, wanted, blocked, i).slots[i] == -1 <==>
      forall r :: 0 <= r < |a.free| ==> !Available(Released(a, i), blocked[i], r)
  {
    SelectArcNoneIffRingExhausted(Released(a, i), blocked[i], WrapWanted(wanted[i], |a.free|));
  }

  /** Each corrected step keeps the arcs exclusive. */
  lemma FollowerStepKeepsExclusive(a: Allocation, require: seq<bool>, wanted: seq<int>, blocked: seq<set<int>>, i: int)
    requires Fits(a, require, wanted, blocked) && 0 <= i < |a.slots|
    requires Exclusive(a)
    ensures Exclusive(FollowerStep(a, require, wanted, blocked, i))
  {
    var free := Released(a, i);
    if require[i] {
      var r := SelectArc(free, blocked[i], WrapWanted(wanted[i], |free|));
      forall j | 0 <= j < |a.slots| && j != i && a.slots[j] != -1
        ensures free[a.slots[j]] == a.free[a.slots[j]] && a.slots[j] != r
      {
        if a.slots[i] != -1 {
          assert a.slots[j] != a.slots[i];
        }
      }
    } else {
      forall j | 0 <= j < |a.slots| && j != i && a.slots[j] != -1
        ensures free[a.slots[j]] == a.free[a.slots[j]]
      {
        if a.slots[i] != -1 {
          assert a.slots[j] != a.slots[i];
        }
      }
    }
  }

  /** The corrected LateUpdate keeps the arcs exclusive, whoever asks for a slot. */
  lemma {:induction false} DistributeKeepsExclusive(a: Allocation, require: seq<bool>, wanted: seq<int>, blocked: seq<set<int>>, i: nat)
    requires Fits(a, require, wanted, blocked) && i <= |a.slots|
    requires Exclusive(a)
    ensures Exclusive(Distribute(a, require, wanted, blocked, i))
    decreases |a.slots| - i
  {
    if i < |a.slots| {
      FollowerStepKeepsExclusive(a, require, wanted, blocked, i);
      DistributeKeepsExclusive(FollowerStep(a, require, wanted, blocked, i), require, wanted, blocked, i + 1);
    }
  }

  /** The loop from follower `i` on leaves the slots of the followers before `i` alone. */
  lemma {:induction false} DistributeKeepsEarlierSlots(a: Allocation, require: seq<bool>, wanted: seq<int>, blocked: seq<set<int>>, i: nat)
    requires Fits(a, require, wanted, blocked) && i <= |a.slots|
    ensures forall j :: 0 <= j < i ==> Distribute(a, require, wanted, blocked, i).slots[j] == a.slots[j]
    decreases |a.slots| - i
  {
    if i < |a.slots| {
      DistributeKeepsEarlierSlots(FollowerStep(a, require, wanted, blocked, i), require, wanted, blocked, i + 1);
    }
  }

  /** After the corrected LateUpdate, a follower that did not ask for a slot holds none. */
  lemma {:induction false} DistributeClearsIdleFollowers(a: Allocation, require: seq<bool>, wanted: seq<int>, blocked: seq<set<int>>, i: nat)
    requires Fits(a, require, wanted, blocked) && i <= |a.slots|
    ensures forall j :: i <= j < |a.slots| && !require[j] ==> Distribute(a, require, wanted, blocked, i).slots[j] == -1
    decreases |a.slots| - i
  {
    if i < |a.slots| {
      var next := FollowerStep(a, require, wanted, blocked, i);
      DistributeClearsIdleFollowers(next, require, wanted, blocked, i + 1);
      DistributeKeepsEarlierSlots(next, require, wanted, blocked, i + 1);
    }
  }

  /**
   * The two loops differ only in the stale slots: while every follower that
   * does not ask holds no arc, the loop as written and the corrected loop
   * agree.
   */
  lemma {:induction false} AsWrittenAgreesWhileIdleHoldNothing(a: Allocation, require: seq<bool>, wanted: seq<int>, blocked: seq<set<int>>, i: nat)
    requires Fits(a, require, wanted, blocked) && i <= |a.slots|
    requires forall j :: i <= j < |a.slots| && !require[j] ==> a.slots[j] == -1
    ensures DistributeAsWritten(a, require, wanted, blocked, i) == Distribute(a, require, wanted, blocked, i)
    decreases |a.slots| - i
  {
    if i < |a.slots| {
      assert !require[i] ==> a.slots[i := -1] == a.slots;
      assert FollowerStepAsWritten(a, require, wanted, blocked, i) == FollowerStep(a, require, wanted, blocked, i);
      AsWrittenAgreesWhileIdleHoldNothing(FollowerStep(a, require, wanted, blocked, i), require, wanted, blocked, i + 1);
    }
  }

  // ---------------------------------------------------------------------------
  // The follower record and the distributor component.

  /** The record a follower and its target use to talk to each other. */
  class TargetFollower {
    /** Set by the follower when it wants the target to give it an arc. */
    var requireSlot: bool
    /** The arc it was given; -1 when it has none. */
    var assignedSlot: int
    var distributor: TargetDistributor

    constructor (owner: TargetDistributor)
      ensures distributor == owner
      ensures !requireSlot && assignedSlot == -1
    {
      distributor := owner;
      requireSlot := false;
      assignedSlot := -1;
    }
  }

  /** The `assignedSlot` of each follower, in list order (pointwise by SlotsOfAt). */
  ghost function SlotsOf(fs: seq<TargetFollower>): (s: seq<int>)
    reads fs`assignedSlot
    ensures |s| == |fs|
  {
    if fs == [] then [] else [fs[0].assignedSlot] + SlotsOf(fs[1..])
  }

  lemma {:induction false} SlotsOfAt(fs: seq<TargetFollower>)
    ensures forall i :: 0 <= i < |fs| ==> SlotsOf(fs)[i] == fs[i].assignedSlot
  {
    if fs != [] {
      SlotsOfAt(fs[1..]);
    }
  }

  /** The `requireSlot` of each follower, in list order (pointwise by RequestsOfAt). */
  ghost function RequestsOf(fs: seq<TargetFollower>): (s: seq<bool>)
    reads fs`requireSlot
    ensures |s| == |fs|
  {
    if fs == [] then [] else [fs[0].requireSlot] + RequestsOf(fs[1..])
  }

  lemma {:induction false} RequestsOfAt(fs: seq<TargetFollower>)
    ensures forall i :: 0 <= i < |fs| ==> RequestsOf(fs)[i] == fs[i].requireSlot
  {
    if fs != [] {
      RequestsOfAt(fs[1..]);
    }
  }

  class TargetDistributor {
    var arcsCount: int
    /** The heading of each arc, as a yaw angle in degrees (arc 0 is straight ahead). */
    var worldDirection: array<real>
    /** `true` for an arc no follower occupies. */
    var freeArcs: array<bool>
    var arcDegree: real
    var followers: seq<TargetFollower>

    /** The ring has been laid out: one entry per arc in both arrays. */
    ghost predicate Ring()
      reads this
    {
      && 0 < arcsCount
      && freeArcs.Length == arcsCount
      && worldDirection.Length == arcsCount
    }

    ghost predicate Valid()
      reads this, followers`assignedSlot
    {
      && Ring()
      && (forall i, j :: 0 <= i < j < |followers| ==> followers[i] != followers[j])
      && (forall f :: f in followers ==> -1 <= f.assignedSlot < arcsCount)
    }

    /** Arc `i` is turned `i * arcDegree` degrees anticlockwise from straight ahead, as OnEnable lays it out. */
    ghost predicate Headings()
      reads this, worldDirection
    {
      forall i :: 0 <= i < worldDirection.Length ==> worldDirection[i] == -(i as real) * arcDegree
    }

    /** The `assignedSlot` of each follower, in list order. */
    ghost function Slots(): (s: seq<int>)
      reads this, followers`assignedSlot
      ensures |s| == |followers|
      ensures Valid() ==> forall k :: 0 <= k < |s| ==> -1 <= s[k] < arcsCount
    {
      SlotsOfAt(followers);
      SlotsOf(followers)
    }

    /** The `requireSlot` of each follower, in list order. */
    ghost function Requests(): (s: seq<bool>)
      reads this, followers`requireSlot
    {
      RequestsOf(followers)
    }

    /** The component as the engine creates it, before OnEnable. */
    constructor (arcsCount: int)
      ensures this.arcsCount == arcsCount
      ensures followers == []
    {
      this.arcsCount := arcsCount;
      worldDirection := new real[0];
      freeArcs := new bool[0];
      arcDegree := 0.0;
      followers := [];
    }

    /** Lays out the ring: every arc free, arc `i` turned `i * arcDegree` degrees anticlockwise. */
    method OnEnable()
      requires 0 < arcsCount
      modifies this
      ensures Valid()
      ensures arcsCount == old(arcsCount)
      ensures fresh(freeArcs) && fresh(worldDirection)
      ensures followers == []
      ensures arcDegree == 360.0 / arcsCount as real
      ensures forall i :: 0 <= i < arcsCount ==> freeArcs[i]
      ensures forall i :: 0 <= i < arcsCount ==> worldDirection[i] == -(i as real) * arcDegree
      ensures Headings()
    {
      var directions := new real[arcsCount];
      var free := new bool[arcsCount];
      var degree := 360.0 / arcsCount as real;
      var currentDirection := 0.0;
      for i := 0 to arcsCount
        modifies free, directions
        invariant forall k :: 0 <= k < i ==> free[k]
        invariant forall k :: 0 <= k < i ==> directions[k] == -(k as real) * degree
        invariant currentDirection == -(i as real) * degree
      {
        free[i] := true;
        directions[i] := currentDirection;
        currentDirection := currentDirection - degree;
      }
      worldDirection := directions;
      freeArcs := free;
      arcDegree := degree;
      followers := [];
    }

    /** The heading of arc `index`: `index * arcDegree` degrees anticlockwise once the ring is laid out. */
    function GetDirection(index: int): (d: real)
      reads this, worldDirection
      requires Ring() && 0 <= index < arcsCount
      ensures Headings() ==> d == -(index as real) * arcDegree
    {
      worldDirection[index]
    }

    method RegisterNewFollower() returns (follower: TargetFollower)
      requires Valid()
      modifies this`followers
      ensures Valid()
      ensures fresh(follower) && follower.distributor == this
      ensures !follower.requireSlot && follower.assignedSlot == -1
      ensures followers == old(followers) + [follower]
    {
      follower := new TargetFollower(this);
      followers := followers + [follower];
    }

    /** Frees the follower's arc if it holds one and drops it from the list; `assignedSlot` is left as it was. */
    method UnregisterFollower(follower: TargetFollower)
      requires Valid()
      requires -1 <= follower.assignedSlot < arcsCount
      modifies this`followers, freeArcs
      ensures Valid()
      ensures followers == RemoveFirst(old(followers), follower)
      ensures follower !in followers
      ensures freeArcs[..] ==
        if follower.assignedSlot != -1 then old(freeArcs[..])[follower.assignedSlot := true]
        else old(freeArcs[..])
    {
      SlotsOfAt(followers);
      if follower.assignedSlot != -1 {
        freeArcs[follower.assignedSlot] := true;
      }
      RemoveFirstKeepsDistinct(followers, follower);
      followers := RemoveFirst(followers, follower);
    }

    /**
     * Hands out arcs for this frame. Every follower in turn releases the arc it
     * holds; those that ask for a slot are then given the one GetFreeArcIndex
     * picks. A follower that does not ask keeps its `assignedSlot`, now stale
     * (see DistributeAsWritten and AsWrittenGivesOneArcToTwoFollowers).
     */
    method LateUpdate(wanted: seq<int>, blocked: seq<set<int>>)
      requires Valid()
      requires |wanted| == |followers| && |blocked| == |followers|
      requires forall i :: 0 <= i < |wanted| ==> 0 <= wanted[i] <= arcsCount
      modifies freeArcs, followers`assignedSlot
      ensures Valid()
      ensures Allocation(freeArcs[..], Slots()) ==
        DistributeAsWritten(Allocation(old(freeArcs[..]), old(Slots())), old(Requests()), wanted, blocked, 0)
    {
      ghost var require := Requests();
      RequestsOfAt(followers);
      SlotsOfAt(followers);
      ghost var current := Allocation(freeArcs[..], Slots());
      ghost var final := DistributeAsWritten(current, require, wanted, blocked, 0);
      for i := 0 to |followers|
        invariant Valid()
        invariant forall j :: 0 <= j < |followers| ==> followers[j].requireSlot == require[j]
        invariant current == Allocation(freeArcs[..], Slots())
        invariant Fits(current, require, wanted, blocked)
        invariant DistributeAsWritten(current, require, wanted, blocked, i) == final
      {
        var follower := followers[i];
        ghost var next := FollowerStepAsWritten(current, require, wanted, blocked, i);
        assert DistributeAsWritten(next, require, wanted, blocked, i + 1) == final;
        ServeFollower(follower, i, current, require, wanted, blocked);
        current := next;
      }
    }

    /**
     * One iteration of LateUpdate's loop: follower `i` releases its arc, and
     * if it asks for a slot it is given the one GetFreeArcIndex claims;
     * otherwise its `assignedSlot` is left as it was.
     */
    method ServeFollower(follower: TargetFollower, i: int, ghost before: Allocation, ghost require: seq<bool>, wanted: seq<int>, blocked: seq<set<int>>)
      requires Valid()
      requires before == Allocation(freeArcs[..], Slots()) && Fits(before, require, wanted, blocked)
      requires 0 <= i < |followers| && followers[i] == follower && follower.requireSlot == require[i]
      modifies freeArcs, follower`assignedSlot
      ensures Valid()
      ensures Allocation(freeArcs[..], Slots()) == FollowerStepAsWritten(before, require, wanted, blocked, i)
    {
      SlotsOfAt(followers);
      if follower.assignedSlot != -1 {
        freeArcs[follower.assignedSlot] := true;
      }
      assert freeArcs[..] == Released(before, i);
      if follower.requireSlot {
        AssignArc(follower, i, before, require, wanted, blocked);
      }
    }

    /** The second half of ServeFollower for a follower that asks for a slot: it gets the arc GetFreeArcIndex claims. */
    method AssignArc(follower: TargetFollower, i: int, ghost before: Allocation, ghost require: seq<bool>, wanted: seq<int>, blocked: seq<set<int>>)
      requires Valid()
      requires Fits(before, require, wanted, blocked) && Slots() == before.slots
      requires 0 <= i < |followers| && followers[i] == follower && require[i]
      requires freeArcs[..] == Released(before, i)
      modifies freeArcs, follower`assignedSlot
      ensures Valid()
      ensures Allocation(freeArcs[..], Slots()) == FollowerStepAsWritten(before, require, wanted, blocked, i)
    {
      var slot := GetFreeArcIndex(wanted[i], blocked[i]);
      SetAssignedSlot(follower, i, slot);
    }

    /** Stores `slot` in the `assignedSlot` of follower `i`, the only slot that changes. */
    method SetAssignedSlot(follower: TargetFollower, i: int, slot: int)
      requires Valid()
      requires 0 <= i < |followers| && followers[i] == follower && -1 <= slot < arcsCount
      modifies follower`assignedSlot
      ensures Valid()
      ensures Slots() == old(Slots())[i := slot]
    {
      SlotsOfAt(followers);
      follower.assignedSlot := slot;
      SlotsOfAt(followers);
    }

    /**
     * Claims an arc for a follower whose wanted point rounds to `rawWanted`:
     * the arc SearchArc finds is marked taken; -1 when there is none.
     */
    method GetFreeArcIndex(rawWanted: int, blocked: set<int>) returns (r: int)
      requires Ring()
      requires 0 <= rawWanted <= arcsCount
      modifies freeArcs
      ensures Ring()
      ensures r == SelectArc(old(freeArcs[..]), blocked, WrapWanted(rawWanted, arcsCount))
      ensures freeArcs[..] == Claim(old(freeArcs[..]), blocked, WrapWanted(rawWanted, arcsCount))
    {
      r := SearchArc(rawWanted, blocked);
      if r != -1 {
        freeArcs[r] := false;
      }
    }

    /**
     * The search part of GetFreeArcIndex: the wanted arc if it is available,
     * else the nearest available one, left before right at each distance; -1
     * when none is. Nothing is changed.
     */
    method SearchArc(rawWanted: int, blocked: set<int>) returns (r: int)
      requires Ring()
      requires 0 <= rawWanted <= arcsCount
      ensures r == SelectArc(freeArcs[..], blocked, WrapWanted(rawWanted, arcsCount))
    {
      ghost var free := freeArcs[..];
      var found := false;
      var wantedIndex := rawWanted;
      if wantedIndex >= worldDirection.Length {
        wantedIndex := wantedIndex - worldDirection.Length;
      }
      assert wantedIndex == WrapWanted(rawWanted, arcsCount);
      ghost var expected := SelectArc(free, blocked, wantedIndex);
      SelectArcStart(free, blocked, wantedIndex);
      var choosenIndex := wantedIndex;
      if choosenIndex !in blocked {
        found := freeArcs[choosenIndex];
      }
      if !found {
        var offset := 1;
        var halfCount := arcsCount / 2;
        while offset <= halfCount
          invariant 1 <= offset <= halfCount + 1
          invariant !found
          invariant SelectFrom(free, blocked, wantedIndex, 2 * offset - 1) == expected
          decreases halfCount - offset
        {
          var leftIndex := wantedIndex - offset;
          var rightIndex := wantedIndex + offset;
          if leftIndex < 0 { leftIndex := leftIndex + arcsCount; }
          if rightIndex >= arcsCount { rightIndex := rightIndex - arcsCount; }
          assert leftIndex == LeftProbe(wantedIndex, offset, arcsCount);
          assert rightIndex == RightProbe(wantedIndex, offset, arcsCount);
          assert freeArcs[leftIndex] == free[leftIndex] && freeArcs[rightIndex] == free[rightIndex];
          SelectFromOffset(free, blocked, wantedIndex, offset);
          if leftIndex !in blocked && freeArcs[leftIndex] {
            choosenIndex := leftIndex;
            found := true;
            break;
          }
          if rightIndex !in blocked && freeArcs[rightIndex] {
            choosenIndex := rightIndex;
            found := true;
            break;
          }
          assert !Available(free, blocked, leftIndex) && !Available(free, blocked, rightIndex);
          offset := offset + 1;
        }
      }
      if !found {
        return -1;
      }
      return choosenIndex;
    }

    /** Marks one arc free again. */
    method FreeIndex(index: int)
      requires Valid()
      requires 0 <= index < arcsCount
      modifies freeArcs
      ensures Valid()
      ensures freeArcs[..] == old(freeArcs[..])[index := true]
    {
      freeArcs[index] := true;
    }
  }
}
