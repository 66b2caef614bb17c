/**
 * The decision rules of the paged-LOD tree, on plain values: the root's
 * phase machine, the show/refine decision for one sibling (node) given its
 * projected diameter, the test that keeps a child PagedLOD from eviction,
 * and the throttle on eviction passes.  Times are milliseconds.
 */
module LodPolicy {

  // ----- timestamps -----

  /** A sibling's lastSeen: -Infinity until it is first hidden, then a time. */
  datatype Stamp = Never | At(ms: int)

  /** `a > b` on lastSeen values, with Never as -Infinity. */
  predicate Later(a: Stamp, b: Stamp)
  {
    a.At? && (b.Never? || a.ms > b.ms)
  }

  /** `frameTimestamp - lastSeen < expiryTime`; with -Infinity the difference is +Infinity. */
  predicate SeenWithin(seen: Stamp, now: int, expiry: int)
  {
    seen.At? && now - seen.ms < expiry
  }

  // ----- the root phase machine (Ac3dROOT.updateLODTree) -----

  /** Ac3dROOT.STATE; Idle is STATE.NONE.  REMOVING is declared but never entered. */
  datatype Phase = Idle | ProcessDownloads | Updating | LaunchDownloads | RemoveReady | Removing

  /** currentState, currentIndex and currentRepeatDownloads. */
  datatype Cursor = Cursor(phase: Phase, index: int, repeats: int)

  const MAX_REPEAT_DOWNLOADS: int := 10
  const UPLOAD_STEP: int := 1

  /** processDownloads runs on this step. */
  predicate Processes(c: Cursor)
  {
    c.phase == Idle || (c.phase == ProcessDownloads && c.repeats < MAX_REPEAT_DOWNLOADS)
  }

  /**
   * The bookkeeping of one updateLODTree call with `n` first-level tiles:
   * Idle starts a cycle, ProcessDownloads counts its repetitions, Updating
   * walks the tiles `UPLOAD_STEP` at a time, then the downloads are launched
   * and the eviction pass returns to Idle.
   */
  function Tick(c: Cursor, n: nat): (r: Cursor)
    ensures r.phase == Idle <==> c.phase == RemoveReady
    ensures c.phase == ProcessDownloads && c.repeats < MAX_REPEAT_DOWNLOADS ==> r.repeats == c.repeats + 1
  {
    match c.phase
    case Idle => Cursor(ProcessDownloads, 0, 1)
    case ProcessDownloads =>
      var k := if c.repeats < MAX_REPEAT_DOWNLOADS then c.repeats + 1 else c.repeats;
      Cursor(if k >= MAX_REPEAT_DOWNLOADS then Updating else ProcessDownloads, c.index, k)
    case Updating =>
      var endIndex := if n < c.index + UPLOAD_STEP then n else c.index + UPLOAD_STEP;
      if endIndex == n then c.(phase := LaunchDownloads) else c.(index := c.index + UPLOAD_STEP)
    case LaunchDownloads => c.(phase := RemoveReady)
    case RemoveReady => c.(phase := Idle)
    case Removing => c
  }

  /** `k` ticks from `c`, with the number of them that ran processDownloads. */
  function Run(c: Cursor, n: nat, k: nat): (Cursor, nat)
    decreases k
  {
    if k == 0 then (c, 0)
    else
      var (d, p) := Run(Tick(c, n), n, k - 1);
      (d, p + if Processes(c) then 1 else 0)
  }

  /** Number of ticks one full cycle takes with `n` first-level tiles. */
  function CycleLength(n: nat): nat
  {
    2 + MAX_REPEAT_DOWNLOADS + (if n == 0 then 1 else n)
  }

  /** Running further from the end of a run continues it. */
  lemma {:induction false} RunSplit(c: Cursor, n: nat, a: nat, b: nat)
    ensures Run(c, n, a + b).0 == Run(Run(c, n, a).0, n, b).0
    ensures Run(c, n, a + b).1 == Run(c, n, a).1 + Run(Run(c, n, a).0, n, b).1
    decreases a
  {
    if a > 0 {
      RunSplit(Tick(c, n), n, a - 1, b);
    }
  }

  /** The repetition phase: from the r-th processDownloads, 10 - r more ticks reach Updating. */
  lemma {:induction false} RepeatPhase(i: int, r: int, n: nat)
    requires 1 <= r <= MAX_REPEAT_DOWNLOADS - 1
    ensures Run(Cursor(ProcessDownloads, i, r), n, MAX_REPEAT_DOWNLOADS - r) ==
      (Cursor(Updating, i, MAX_REPEAT_DOWNLOADS), MAX_REPEAT_DOWNLOADS - r)
    ensures forall k :: 0 < k <= MAX_REPEAT_DOWNLOADS - r ==> Run(Cursor(ProcessDownloads, i, r), n, k).0.phase != Idle
    decreases MAX_REPEAT_DOWNLOADS - r
  {
    var c := Cursor(ProcessDownloads, i, r);
    if r < MAX_REPEAT_DOWNLOADS - 1 {
      RepeatPhase(i, r + 1, n);
      forall k | 0 < k <= MAX_REPEAT_DOWNLOADS - r ensures Run(c, n, k).0.phase != Idle {
        if k > 1 {
          assert Run(c, n, k).0 == Run(Tick(c, n), n, k - 1).0;
        }
      }
    }
  }

  /** The walk over the tiles: from tile i, one tick per remaining tile reaches LaunchDownloads. */
  lemma {:induction false} UpdatingPhase(i: nat, r: int, n: nat)
    requires i < n
    ensures Run(Cursor(Updating, i, r), n, n - i) == (Cursor(LaunchDownloads, n - 1, r), 0)
    ensures forall k :: 0 < k <= n - i ==> Run(Cursor(Updating, i, r), n, k).0.phase != Idle
    decreases n - i
  {
    var c := Cursor(Updating, i, r);
    if i + 1 < n {
      UpdatingPhase(i + 1, r, n);
      forall k | 0 < k <= n - i ensures Run(c, n, k).0.phase != Idle {
        if k > 1 {
          assert Run(c, n, k).0 == Run(Tick(c, n), n, k - 1).0;
        }
      }
    }
  }

  /** Where a cycle from Idle stands after the repetitions, after the walk and at its end. */
  lemma {:induction false} CycleMilestones(i: int, r: int, n: nat)
    ensures Run(Cursor(Idle, i, r), n, MAX_REPEAT_DOWNLOADS) ==
      (Cursor(Updating, 0, MAX_REPEAT_DOWNLOADS), MAX_REPEAT_DOWNLOADS)
    ensures Run(Cursor(Idle, i, r), n, MAX_REPEAT_DOWNLOADS + (if n == 0 then 1 else n)) ==
      (Cursor(LaunchDownloads, if n == 0 then 0 else n - 1, MAX_REPEAT_DOWNLOADS), MAX_REPEAT_DOWNLOADS)
    ensures Run(Cursor(Idle, i, r), n, CycleLength(n)) ==
      (Cursor(Idle, if n == 0 then 0 else n - 1, MAX_REPEAT_DOWNLOADS), MAX_REPEAT_DOWNLOADS)
  {
    var c0 := Cursor(Idle, i, r);
    var c2 := Cursor(Updating, 0, MAX_REPEAT_DOWNLOADS);
    var u := if n == 0 then 1 else n;
    var c3 := Cursor(LaunchDownloads, if n == 0 then 0 else n - 1, MAX_REPEAT_DOWNLOADS);
    var c5 := Cursor(Idle, c3.index, MAX_REPEAT_DOWNLOADS);
    assert Run(c0, n, 1) == (Cursor(ProcessDownloads, 0, 1), 1);
    RepeatPhase(0, 1, n);
    RunSplit(c0, n, 1, MAX_REPEAT_DOWNLOADS - 1);
    if n == 0 {
      assert Run(c2, n, u) == (c3, 0);
    } else {
      UpdatingPhase(0, MAX_REPEAT_DOWNLOADS, n);
    }
    RunSplit(c0, n, MAX_REPEAT_DOWNLOADS, u);
    assert Run(Cursor(RemoveReady, c3.index, MAX_REPEAT_DOWNLOADS), n, 1) == (c5, 0);
    assert Run(c3, n, 2) == (c5, 0);
    RunSplit(c0, n, MAX_REPEAT_DOWNLOADS + u, 2);
  }

  /**
   * One cycle of updateLODTree from Idle: processDownloads runs exactly
   * MAX_REPEAT_DOWNLOADS times, every tile is visited once, and the machine
   * is back at Idle after CycleLength(n) calls and not before.
   */
  lemma Cycle(i: int, r: int, n: nat)
    ensures Run(Cursor(Idle, i, r), n, CycleLength(n)).0.phase == Idle
    ensures Run(Cursor(Idle, i, r), n, CycleLength(n)).1 == MAX_REPEAT_DOWNLOADS
    ensures forall k :: 0 < k < CycleLength(n) ==> Run(Cursor(Idle, i, r), n, k).0.phase != Idle
  {
    var c0 := Cursor(Idle, i, r);
    var u := if n == 0 then 1 else n;
    CycleMilestones(i, r, n);
    RepeatPhase(0, 1, n);
    if n > 0 {
      UpdatingPhase(0, MAX_REPEAT_DOWNLOADS, n);
    }
    forall k | 0 < k < CycleLength(n) ensures Run(c0, n, k).0.phase != Idle {
      if k <= MAX_REPEAT_DOWNLOADS {
        RunSplit(c0, n, 1, k - 1);
      } else if k <= MAX_REPEAT_DOWNLOADS + u {
        RunSplit(c0, n, MAX_REPEAT_DOWNLOADS, k - MAX_REPEAT_DOWNLOADS);
      } else {
        RunSplit(c0, n, MAX_REPEAT_DOWNLOADS + u, 1);
      }
    }
  }

  // ----- one sibling's show/refine decision (updateSiblingLODTree) -----

  /**
   * What updateSiblingLODTree does with one sibling: hide it (outside the
   * view, or replaced by its loaded children), show it, or show it while
   * asking for its children with the given download priority.
   */
  datatype Decision = Hidden | Replaced | Shown | Refining(priority: real)

  predicate Visible(d: Decision)
  {
    d.Shown? || d.Refining?
  }

  /**
   * The decision for a sibling whose range limit (maxLODRange times the
   * pixel ratio) is `maxRange`, projected to `diameter` pixels, with
   * `childCount` children of which `childrenLoaded` have finished loading.
   */
  function Decide(inView: bool, maxRange: real, diameter: real, childCount: nat, childrenLoaded: int): Decision
  {
    if !inView then Hidden
    else if maxRange > diameter then Shown
    else if childCount == 0 then Shown
    else if childrenLoaded < childCount then
      Refining(if maxRange >= 1.0 then (diameter - maxRange) / maxRange else diameter)
    else Replaced
  }

  /**
   * A sibling in view is hidden exactly when it is too coarse for its screen
   * size and all its children are loaded to take its place, so no hole opens
   * in the model.
   */
  lemma HiddenOnlyWhenCovered(maxRange: real, diameter: real, childCount: nat, childrenLoaded: int)
    ensures !Visible(Decide(true, maxRange, diameter, childCount, childrenLoaded)) <==>
      maxRange <= diameter && childCount > 0 && childrenLoaded >= childCount
  {
  }

  /** Children are requested only for a sibling that is too coarse and still has children missing. */
  lemma RefinesOnlyWhenCoarse(inView: bool, maxRange: real, diameter: real, childCount: nat, childrenLoaded: int)
    ensures Decide(inView, maxRange, diameter, childCount, childrenLoaded).Refining? <==>
      inView && maxRange <= diameter && 0 < childCount && childrenLoaded < childCount
  {
  }

  /**
   * The download priority is the relative overshoot of the screen size over
   * the range limit: never negative once the limit is at least one pixel,
   * and larger for a sibling that covers more of the screen.
   */
  lemma PriorityGrowsWithDiameter(maxRange: real, d1: real, d2: real, childCount: nat, childrenLoaded: int)
    requires maxRange >= 1.0 && maxRange <= d1 <= d2
    requires 0 < childCount && childrenLoaded < childCount
    ensures Decide(true, maxRange, d1, childCount, childrenLoaded).priority >= 0.0
    ensures Decide(true, maxRange, d1, childCount, childrenLoaded).priority <=
            Decide(true, maxRange, d2, childCount, childrenLoaded).priority
  {
    assert (d1 - maxRange) / maxRange <= (d2 - maxRange) / maxRange by {
      assert d1 - maxRange <= d2 - maxRange;
      DivMonotone(d1 - maxRange, d2 - maxRange, maxRange);
    }
    assert (d1 - maxRange) / maxRange >= 0.0 by {
      DivMonotone(0.0, d1 - maxRange, maxRange);
    }
  }

  lemma DivMonotone(a: real, b: real, m: real)
    requires a <= b && m > 0.0
    ensures a / m <= b / m
  {
    assert b / m - a / m == (b - a) / m;
  }

  // ----- eviction (removeSiblingExpiredChildren) -----

  /** What removeSiblingExpiredChildren reads of one child PagedLOD. */
  datatype ChildView = ChildView(loaded: bool, loadedRequested: bool, latestSeen: Stamp,
                                 anySiblingVisible: bool, childrenLoaded: int)

  /**
   * The child keeps its whole siblinghood alive: it is loaded and visible or
   * seen less than `expiry` ago, or it is being loaded, or it has loaded
   * children of its own.
   */
  predicate Keeps(v: ChildView, now: int, expiry: int)
  {
    (v.loaded && (v.anySiblingVisible || SeenWithin(v.latestSeen, now, expiry)))
    || (v.loadedRequested && !v.loaded)
    || v.childrenLoaded > 0
  }

  /**
   * A loaded child no sibling of which is visible, that has no loaded
   * children and was last seen `expiry` or more ago (or never) releases its
   * siblinghood; one seen more recently does not.
   */
  lemma ExpiryDecides(v: ChildView, now: int, expiry: int)
    requires v.loaded && !v.anySiblingVisible && v.childrenLoaded <= 0
    ensures Keeps(v, now, expiry) <==> v.latestSeen.At? && now - v.latestSeen.ms < expiry
  {
  }

  /** A child whose load is under way always blocks eviction, whatever its timestamps. */
  lemma LoadingBlocksEviction(v: ChildView, now: int, expiry: int)
    requires v.loadedRequested && !v.loaded
    ensures Keeps(v, now, expiry)
  {
  }

  /**
   * Even with no child keeping it, a siblinghood is spared while its parent
   * is in view and too coarse for its screen size, since the children would
   * be fetched again at once.
   */
  predicate ParentWantsChildren(visibleByFrustum: bool, maxRange: real, diameter: real)
  {
    visibleByFrustum && maxRange < diameter
  }

  // ----- the eviction throttle (Ac3dROOT.removeExpiredChildren) -----

  const EXPIRY_TIME: int := 20000

  /** `frameTimestamp - lastRemoveExpired > 1.2 * expiryTime`, in exact arithmetic. */
  predicate SweepDue(now: int, lastRemoveExpired: int, expiry: int)
  {
    5 * (now - lastRemoveExpired) > 6 * expiry
  }

  /**
   * After a pass at t1 sets lastRemoveExpired to t1 + 200, the next pass is
   * due only more than 24.2 s later.
   */
  lemma SweepSpacing(t1: int, t2: int)
    requires SweepDue(t2, t1 + 200, EXPIRY_TIME)
    ensures t2 - t1 > 24200
  {
  }
}
