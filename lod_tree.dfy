/**
 * The paged-LOD tree itself: the root (Ac3dROOT) with its first-level tiles
 * and download queue, the PagedLOD tiles, and the siblings (AC3D.Node) a
 * tile is made of, each of which owns a group of child tiles.  Camera,
 * frustum and projection arithmetic are inputs: whether a sibling is in
 * view and its projected diameter in pixels are parameters.  Times are
 * milliseconds.
 */
module LodTree {
  import opened Wrappers
  import opened LodText
  import opened LodQueue
  import opened LodDownloads
  import opened LodPolicy

  /** A name after PagedLOD.init: every `+` is escaped. */
  type Escaped = s: string | '+' !in s

  /** Time a tile stays blocked after a failed load (waitAfterError). */
  const WAIT_AFTER_ERROR: int := 10000

  /** Where a loading error was reported: onLoadingError() without argument, or with the string naming the place. */
  datatype ErrorPlace = Unspecified | Place(what: string)

  /** An error before any data was processed: no place given, or the place "worker". */
  predicate BeforeData(place: ErrorPlace)
  {
    place.Unspecified? || place.what == "worker"
  }

  /** One entry of the parsed tile header: the sibling's id, its range limit when given, and its child tile paths. */
  datatype NodeData = NodeData(id: string, maxScreenDiameter: Option<real>, children: seq<string>)

  /** AC3D.Node: one sibling of a tile, the unit that is shown or hidden. */
  class Sibling {
    var name: string
    var maxLODRange: real
    var visible: bool
    var lastSeen: Stamp
    var numberChildrenLoaded: int
    var ancestorVisible: bool
    /** Number of meshes in the geometry group. */
    var meshCount: nat

    /** new AC3D.Node(name): a THREE.Group (visible) after Node.init. */
    constructor (name: string)
      ensures this.name == name && maxLODRange == 0.0 && visible
      ensures lastSeen == Never && numberChildrenLoaded == 0 && !ancestorVisible && meshCount == 0
    {
      this.name := name;
      maxLODRange := 0.0;
      visible := true;
      lastSeen := Never;
      numberChildrenLoaded := 0;
      ancestorVisible := false;
      meshCount := 0;
    }

    /** Node.setVisible, without the wireframe bookkeeping. */
    method SetVisible(v: bool)
      modifies this`visible
      ensures visible == v
    {
      visible := v;
    }

    /** Node.addMesh: one more mesh in the geometry group. */
    method AddMesh()
      modifies this`meshCount
      ensures meshCount == old(meshCount) + 1
    {
      meshCount := meshCount + 1;
    }
  }

  // ----- folds over a tile's siblings -----

  /** The latest lastSeen of the siblings (getLastestSeen); Never for none. */
  function MaxSeen(ss: seq<Sibling>): (r: Stamp)
    reads set s | s in ss
    ensures forall k :: 0 <= k < |ss| ==> !Later(ss[k].lastSeen, r)
    ensures r.Never? || exists k :: 0 <= k < |ss| && ss[k].lastSeen == r
  {
    if |ss| == 0 then Never
    else
      var m := MaxSeen(ss[..|ss| - 1]);
      var last := ss[|ss| - 1].lastSeen;
      assert forall k :: 0 <= k < |ss| - 1 ==> ss[..|ss| - 1][k] == ss[k];
      if Later(last, m) then last else m
  }

  /** Some sibling is visible (getIsSiblingVisible). */
  predicate AnyVisible(ss: seq<Sibling>)
    reads set s | s in ss
  {
    exists k :: 0 <= k < |ss| && ss[k].visible
  }

  /** Sum of the siblings' loaded-children counters (getNumberChildrenLoaded). */
  function SumLoaded(ss: seq<Sibling>): (r: int)
    reads set s | s in ss
    decreases |ss|
  {
    if |ss| == 0 then 0 else SumLoaded(ss[..|ss| - 1]) + ss[|ss| - 1].numberChildrenLoaded
  }

  /** With no negative counter, the sum is positive exactly when some sibling has a loaded child. */
  lemma {:induction false} SumLoadedPositive(ss: seq<Sibling>)
    requires forall k :: 0 <= k < |ss| ==> ss[k].numberChildrenLoaded >= 0
    ensures SumLoaded(ss) >= 0
    ensures SumLoaded(ss) > 0 <==> exists k :: 0 <= k < |ss| && ss[k].numberChildrenLoaded > 0
    decreases |ss|
  {
    if |ss| > 0 {
      var init := ss[..|ss| - 1];
      assert forall k :: 0 <= k < |init| ==> init[k] == ss[k];
      SumLoadedPositive(init);
      if SumLoaded(init) > 0 {
        var k :| 0 <= k < |init| && init[k].numberChildrenLoaded > 0;
        assert ss[k].numberChildrenLoaded > 0;
      }
    }
  }

  // ----- loadSiblingChildren on the children's loadedRequested flags -----

  /** Number of children not yet requested. */
  function Pending(flags: seq<bool>): nat
  {
    if flags == [] then 0 else (if flags[0] then 0 else 1) + Pending(flags[1..])
  }

  /**
   * The loadedRequested flags after loadSiblingChildren, from the flags
   * before it and the number of loads the resources allow: each child not
   * yet requested takes one load while some are left; the first child
   * refused stops the walk, so it and every later child keep their flags.
   */
  function Launch(flags: seq<bool>, budget: nat): seq<bool>
  {
    if flags == [] then []
    else if flags[0] then [true] + Launch(flags[1..], budget)
    else if budget > 0 then [true] + Launch(flags[1..], budget - 1)
    else flags
  }

  /** One step of Launch at position `i`. */
  lemma LaunchStep(f: seq<bool>, i: nat, budget: nat)
    requires i < |f|
    ensures Launch(f[i..], budget) ==
      if f[i] then [true] + Launch(f[i + 1..], budget)
      else if budget > 0 then [true] + Launch(f[i + 1..], budget - 1)
      else f[i..]
  {
    assert f[i..][1..] == f[i + 1..];
  }

  /**
   * The state of the loop of loadSiblingChildren before child `i`, with
   * `t` the final flags and `f` the old ones: while loads succeed the rest
   * of `t` follows Launch with the budget `rem` left, after a refusal it is
   * the rest of `f`; the loads made so far are `rem0 - rem`, one per pending
   * child passed.
   */
  ghost predicate Walk(f: seq<bool>, t: seq<bool>, i: nat, rem: nat, rem0: nat, ok: bool)
  {
    i <= |f| == |t| &&
    (ok ==> t[i..] == Launch(f[i..], rem) && rem <= rem0 && rem0 - rem + Pending(f[i..]) == Pending(f)) &&
    (!ok ==> t[i..] == f[i..] && Pending(f) > rem0 && rem == 0)
  }

  /** The walk starts on the old flags with the whole budget. */
  lemma WalkStart(f: seq<bool>, budget: nat)
    ensures Walk(f, Launch(f, budget), 0, budget, budget, true)
  {
    LaunchCounts(f, budget);
    assert Launch(f, budget)[0..] == Launch(f, budget);
  }

  /**
   * One child of the walk: a child already requested is passed, a pending
   * one is loaded while no load has been refused, and `ok'` tells whether
   * that load started, which it does exactly when budget is left.  The
   * child's final flag is its old one, or whether its load started.
   */
  lemma WalkStep(f: seq<bool>, t: seq<bool>, i: nat, rem: nat, rem0: nat, ok: bool)
    requires Walk(f, t, i, rem, rem0, ok) && i < |f|
    ensures t[i] == (f[i] || (ok && rem > 0))
    ensures ok && !f[i] && rem > 0 ==> Walk(f, t, i + 1, rem - 1, rem0, true)
    ensures ok && !f[i] && rem == 0 ==> Walk(f, t, i + 1, rem, rem0, false)
    ensures !(ok && !f[i]) ==> Walk(f, t, i + 1, rem, rem0, ok)
  {
    LaunchStep(f, i, rem);
    assert t[i..][1..] == t[i + 1..] && t[i] == t[i..][0];
    assert f[i..][1..] == f[i + 1..];
  }

  /** At the end of the walk the loads made are the pending children, or the budget ran out first. */
  lemma WalkDone(f: seq<bool>, t: seq<bool>, rem: nat, rem0: nat, ok: bool)
    requires Walk(f, t, |f|, rem, rem0, ok)
    ensures ok ==> Pending(f) == rem0 - rem
    ensures !ok ==> Pending(f) > rem0
  {
  }

  /** Where the loop of loadSiblingChildren stands: the flags it has set so far, the loads the resources still allow, and whether no load was refused yet. */
  datatype Progress = Progress(flags: seq<bool>, rem: nat, ok: bool)

  /**
   * One pass of the loop of loadSiblingChildren over a child whose old flag
   * is `flag`: a pending child is loaded while no load was refused, and its
   * load starts exactly when budget is left; otherwise the flag stays.
   */
  function Next(p: Progress, flag: bool): (q: Progress)
    ensures q.flags == p.flags + [flag || (p.ok && p.rem > 0)]
    ensures q.rem == p.rem - (if p.ok && !flag && p.rem > 0 then 1 else 0)
    ensures q.ok == (p.ok && (flag || p.rem > 0))
  {
    if p.ok && !flag then
      (if p.rem > 0 then Progress(p.flags + [true], p.rem - 1, true) else Progress(p.flags + [false], 0, false))
    else Progress(p.flags + [flag], p.rem, p.ok)
  }

  /** The passes of the loop of loadSiblingChildren from child `i` on, starting from `p`. */
  function SweepFrom(p: Progress, f: seq<bool>, i: nat): (q: Progress)
    requires i <= |f|
    ensures |q.flags| == |p.flags| + |f| - i
    decreases |f| - i
  {
    if i == |f| then p else SweepFrom(Next(p, f[i]), f, i + 1)
  }

  /** The whole loop of loadSiblingChildren over the old flags `f`, with `budget` loads allowed. */
  function Sweep(f: seq<bool>, budget: nat): (p: Progress)
    ensures |p.flags| == |f|
  {
    SweepFrom(Progress([], budget, true), f, 0)
  }

  /** From a point of the walk, the remaining passes set the rest of the flags Launch gives. */
  lemma {:induction false} SweepFromWalk(f: seq<bool>, budget: nat, p: Progress, i: nat)
    requires i <= |f| && Walk(f, Launch(f, budget), i, p.rem, budget, p.ok) && p.flags == Launch(f, budget)[..i]
    ensures var q := SweepFrom(p, f, i);
      q.flags == Launch(f, budget) && Walk(f, Launch(f, budget), |f|, q.rem, budget, q.ok)
    decreases |f| - i
  {
    var t := Launch(f, budget);
    if i == |f| {
      assert t[..i] == t;
    } else {
      WalkStep(f, t, i, p.rem, budget, p.ok);
      assert t[..i + 1] == t[..i] + [t[i]];
      SweepFromWalk(f, budget, Next(p, f[i]), i + 1);
    }
  }

  /**
   * The whole loop sets the flags Launch gives, succeeds exactly when the
   * budget covers the pending children, and leaves the budget minus the
   * loads it made.
   */
  lemma SweepLaunch(f: seq<bool>, budget: nat)
    ensures Sweep(f, budget).flags == Launch(f, budget)
    ensures Sweep(f, budget).ok <==> Pending(f) <= budget
    ensures Sweep(f, budget).rem == if Pending(f) <= budget then budget - Pending(f) else 0
  {
    WalkStart(f, budget);
    assert Launch(f, budget)[..0] == [];
    SweepFromWalk(f, budget, Progress([], budget, true), 0);
    var p := Sweep(f, budget);
    WalkDone(f, Launch(f, budget), p.rem, budget, p.ok);
  }

  /** The loads the resources allow: none when the queues are full, one per idle worker, or any number without workers. */
  function Budget(saturated: bool, useWorker: bool, workers: nat, children: nat): nat
  {
    if saturated then 0 else if useWorker then workers else children
  }

  /**
   * Launch never withdraws a request, requests every child exactly when the
   * budget covers the pending ones, and leaves Pending(flags) - budget
   * children pending otherwise.
   */
  lemma {:induction false} LaunchCounts(flags: seq<bool>, budget: nat)
    ensures |Launch(flags, budget)| == |flags|
    ensures forall i :: 0 <= i < |flags| && flags[i] ==> Launch(flags, budget)[i]
    ensures Pending(Launch(flags, budget)) == if Pending(flags) <= budget then 0 else Pending(flags) - budget
    ensures (forall i :: 0 <= i < |flags| ==> Launch(flags, budget)[i]) <==> Pending(flags) <= budget
    decreases |flags|
  {
    if flags != [] {
      var r := Launch(flags, budget);
      if flags[0] {
        LaunchCounts(flags[1..], budget);
        assert forall i :: 1 <= i < |flags| ==> r[i] == Launch(flags[1..], budget)[i - 1];
      } else if budget > 0 {
        LaunchCounts(flags[1..], budget - 1);
        assert forall i :: 1 <= i < |flags| ==> r[i] == Launch(flags[1..], budget - 1)[i - 1];
      } else {
        assert !r[0];
      }
    }
  }

  /**
   * The children requested are the first pending ones: a child left pending
   * comes after every child that was pending and is now requested.
   */
  lemma {:induction false} LaunchInOrder(flags: seq<bool>, budget: nat, i: nat, j: nat)
    requires i < j < |flags| && !flags[i] && !flags[j]
    requires |Launch(flags, budget)| == |flags| && Launch(flags, budget)[j]
    ensures Launch(flags, budget)[i]
    decreases |flags|
  {
    var r := Launch(flags, budget);
    if i > 0 {
      if flags[0] {
        assert forall k :: 1 <= k < |flags| ==> r[k] == Launch(flags[1..], budget)[k - 1];
        LaunchInOrder(flags[1..], budget, i - 1, j - 1);
      } else if budget > 0 {
        assert forall k :: 1 <= k < |flags| ==> r[k] == Launch(flags[1..], budget - 1)[k - 1];
        LaunchInOrder(flags[1..], budget - 1, i - 1, j - 1);
      }
    }
  }

  /** The loadedRequested flags of a group of tiles, in order. */
  ghost function Flags(kids: seq<PagedLOD>): (r: seq<bool>)
    reads (set c | c in kids)`loadedRequested
    ensures |r| == |kids| && forall j :: 0 <= j < |kids| ==> r[j] == kids[j].loadedRequested
    decreases |kids|
  {
    if kids == [] then [] else [kids[0].loadedRequested] + Flags(kids[1..])
  }

  /** The pixel ratio updateSiblingLODTree uses: the root's, or 1 when it is 0. */
  function RatioOrOne(pixelRatio: real): real
  {
    if pixelRatio == 0.0 then 1.0 else pixelRatio
  }

  /** What removeSiblingExpiredChildren reads of a child tile through getLastestSeen, getIsSiblingVisible and getNumberChildrenLoaded. */
  function View(c: PagedLOD): ChildView
    reads c, set s | s in c.siblings
  {
    ChildView(c.loaded, c.loadedRequested, MaxSeen(c.siblings), AnyVisible(c.siblings), SumLoaded(c.siblings))
  }

  /**
   * One pass of the loop of loadSiblingChildren: child `i` is loaded when
   * it is not yet requested and every earlier load started (`launched`).
   */
  method LoadNext(kids: seq<PagedLOD>, i: nat, launched: bool, dl: Downloads<PagedLOD>) returns (ok: bool)
    requires i < |kids|
    requires forall j :: 0 <= j < |kids| && j != i ==> kids[j] != kids[i]
    modifies {kids[i]}`loadedRequested, {kids[i]}`parentIDInSiblinghood, dl`freeWorkers
    ensures forall j :: 0 <= j < |kids| && j != i ==> kids[j].loadedRequested == old(kids[j].loadedRequested)
    ensures ok == (launched && (old(kids[i].loadedRequested) || (!dl.Saturated() && (kids[i].root.useWorker ==> old(dl.freeWorkers) > 0))))
    ensures kids[i].loadedRequested == (old(kids[i].loadedRequested) || ok)
    ensures dl.freeWorkers == old(dl.freeWorkers) - (if ok && !old(kids[i].loadedRequested) && kids[i].root.useWorker then 1 else 0)
  {
    ok := launched;
    if !kids[i].loadedRequested && launched {
      ok := kids[i].LoadLOD(None, dl);
    }
  }

  /**
   * The loop of loadSiblingChildren over the child tiles `kids` of one
   * sibling, whose flags on entry are `flags0`: the flags, the outcome and
   * the idle workers end as Sweep says.
   */
  method LoadChildren(kids: seq<PagedLOD>, root: Root, dl: Downloads<PagedLOD>, ghost flags0: seq<bool>) returns (ok: bool)
    requires forall a, b :: 0 <= a < b < |kids| ==> kids[a] != kids[b]
    requires forall j :: 0 <= j < |kids| ==> kids[j].root == root
    requires |flags0| == |kids| && forall j :: 0 <= j < |kids| ==> kids[j].loadedRequested == flags0[j]
    modifies (set k | k in kids)`loadedRequested, (set k | k in kids)`parentIDInSiblinghood, dl`freeWorkers
    ensures var p := Sweep(flags0, Budget(dl.Saturated(), root.useWorker, old(dl.freeWorkers), |kids|));
      ok == p.ok && (forall j :: 0 <= j < |kids| ==> kids[j].loadedRequested == p.flags[j]) &&
      dl.freeWorkers == if root.useWorker && !dl.Saturated() then p.rem else old(dl.freeWorkers)
  {
    ghost var sat := dl.Saturated();
    ghost var budget := Budget(sat, root.useWorker, dl.freeWorkers, |kids|);
    var nbChildren := |kids|;
    ok := true;
    var idChild := 0;
    ghost var prog := Progress([], budget, true);
    while idChild < nbChildren
      invariant idChild <= nbChildren == |kids|
      invariant SweepFrom(prog, flags0, idChild) == Sweep(flags0, budget) && ok == prog.ok
      invariant |prog.flags| == idChild && prog.rem <= budget && prog.rem + idChild >= budget && (!prog.ok ==> prog.rem == 0)
      invariant forall j :: 0 <= j < idChild ==> kids[j].loadedRequested == prog.flags[j]
      invariant forall j :: idChild <= j < |kids| ==> kids[j].loadedRequested == flags0[j]
      invariant dl.Saturated() == sat
      invariant root.useWorker && !sat ==> dl.freeWorkers == prog.rem
      invariant !(root.useWorker && !sat) ==> dl.freeWorkers == old(dl.freeWorkers)
    {
      assert kids[idChild].root == root && kids[idChild].loadedRequested == flags0[idChild];
      ok := LoadNext(kids, idChild, ok, dl);
      prog := Next(prog, flags0[idChild]);
      idChild := idChild + 1;
    }
  }

  /** The child tiles of every queued request: what launchDownloads may request. */
  ghost function QueuedKids(q: seq<Request<PagedLOD>>): (r: set<PagedLOD>)
    reads QueuedNodes(q)`siblingChildren
  {
    set i, c | 0 <= i < |q| && c in q[i].node.Kids(q[i].idSibling) :: c
  }

  /** The tiles of the queued requests. */
  function QueuedNodes(q: seq<Request<PagedLOD>>): (r: set<PagedLOD>)
    ensures forall i :: 0 <= i < |q| ==> q[i].node in r
  {
    set i | 0 <= i < |q| :: q[i].node
  }

  /** A queue holding only requests of another has only children of the other. */
  lemma QueuedKidsSubset(a: seq<Request<PagedLOD>>, b: seq<Request<PagedLOD>>)
    requires forall r :: r in a ==> r in b
    ensures QueuedKids(a) <= QueuedKids(b)
  {
    forall c | c in QueuedKids(a) ensures c in QueuedKids(b) {
      var i :| 0 <= i < |a| && c in a[i].node.Kids(a[i].idSibling);
      assert a[i] in a;
      var k :| 0 <= k < |b| && b[k] == a[i];
    }
  }

  /** The children of a queued request are among the queued children. */
  lemma QueuedKidsHas(q: seq<Request<PagedLOD>>, i: nat)
    requires i < |q|
    ensures q[i].node.Kids(q[i].idSibling) <= QueuedKids(q)
  {
  }

  /** Every child in `kids` has been requested. */
  ghost predicate AllRequested(kids: seq<PagedLOD>)
    reads (set c | c in kids)`loadedRequested
    decreases |kids|
  {
    kids == [] || (kids[0].loadedRequested && AllRequested(kids[1..]))
  }

  /** AllRequested says that each child has its flag set. */
  lemma {:induction false} AllRequestedMeaning(kids: seq<PagedLOD>)
    ensures AllRequested(kids) <==> forall c :: c in kids ==> c.loadedRequested
    decreases |kids|
  {
    if kids != [] {
      AllRequestedMeaning(kids[1..]);
      assert forall c :: c in kids ==> c == kids[0] || c in kids[1..];
    }
  }

  /** Every child of a request's sibling has been requested. */
  ghost predicate Requested(r: Request<PagedLOD>)
    reads r.node`siblingChildren, r.node.Kids(r.idSibling)`loadedRequested
  {
    0 <= r.idSibling < |r.node.siblingChildren| ==> AllRequested(r.node.siblingChildren[r.idSibling])
  }

  /** Children whose flags were all set keep them while no flag goes from true to false. */
  twostate lemma {:induction false} AllRequestedStays(kids: seq<PagedLOD>)
    requires old(AllRequested(kids))
    requires forall c: PagedLOD :: old(allocated(c)) && old(c.loadedRequested) ==> c.loadedRequested
    ensures AllRequested(kids)
    decreases |kids|
  {
    if kids != [] {
      AllRequestedStays(kids[1..]);
    }
  }

  /** Each served request's outcome is true exactly when all its children are requested. */
  ghost predicate OutcomesHold(served: seq<Request<PagedLOD>>, outcomes: seq<bool>)
    reads QueuedNodes(served)`siblingChildren, QueuedKids(served)`loadedRequested
  {
    |outcomes| == |served| && forall i :: 0 <= i < |served| ==> (outcomes[i] <==> Requested(served[i]))
  }

  /** A request whose children were all requested stays so while no flag goes from true to false. */
  twostate lemma RequestedStays(r: Request<PagedLOD>)
    requires old(Requested(r)) && unchanged(r.node`siblingChildren)
    requires forall c: PagedLOD :: old(allocated(c)) && old(c.loadedRequested) ==> c.loadedRequested
    ensures Requested(r)
  {
    if 0 <= r.idSibling < |r.node.siblingChildren| {
      AllRequestedStays(r.node.siblingChildren[r.idSibling]);
    }
  }

  /** The children of queued requests depend on nothing but the requests' sibling groups. */
  twostate lemma QueuedKidsFrame(q: seq<Request<PagedLOD>>)
    requires forall i :: 0 <= i < |q| ==> unchanged(q[i].node`siblingChildren)
    ensures QueuedKids(q) == old(QueuedKids(q))
  {
    forall c ensures c in QueuedKids(q) <==> c in old(QueuedKids(q)) {
      if c in QueuedKids(q) {
        var i :| 0 <= i < |q| && c in q[i].node.Kids(q[i].idSibling);
        assert c in old(q[i].node.Kids(q[i].idSibling));
      }
      if c in old(QueuedKids(q)) {
        var i :| 0 <= i < |q| && c in old(q[i].node.Kids(q[i].idSibling));
        assert c in q[i].node.Kids(q[i].idSibling);
      }
    }
  }

  /**
   * The state of the loop of launchDownloads over the children `frame` of
   * the queue, whose flags were `was`: each served request's outcome tells
   * whether all its children are requested, no flag went from true to
   * false, and a child of no served request has its flag as it was.
   */
  ghost predicate ServedSoFar(served: seq<Request<PagedLOD>>, outcomes: seq<bool>, frame: set<PagedLOD>, was: map<PagedLOD, bool>)
    reads frame`loadedRequested, QueuedNodes(served)`siblingChildren
  {
    && |outcomes| == |served| && frame <= was.Keys
    && (forall i :: 0 <= i < |served| ==> served[i].node.Kids(served[i].idSibling) <= frame)
    && OutcomesHold(served, outcomes)
    && (forall c :: c in frame && was[c] ==> c.loadedRequested)
    && (forall c :: c in frame && c !in QueuedKids(served) ==> c.loadedRequested == was[c])
  }

  /** The flags of the queued children as launchDownloads finds them: nothing is served yet. */
  lemma StartServing(q: seq<Request<PagedLOD>>) returns (was: map<PagedLOD, bool>)
    requires forall r :: r in q ==> r.node.Servable(r.idSibling)
    ensures was.Keys == QueuedKids(q) && ServedSoFar([], [], QueuedKids(q), was) && AllServable(q, QueuedKids(q))
    ensures forall c :: c in QueuedKids(q) ==> was[c] == c.loadedRequested
  {
    was := map c: PagedLOD | c in QueuedKids(q) :: c.loadedRequested;
    forall k | 0 <= k < |q| ensures q[k].node.Kids(q[k].idSibling) <= QueuedKids(q) {
      QueuedKidsHas(q, k);
    }
  }

  /**
   * The loop of launchDownloads over the sorted queue `q`: each request,
   * taken off the front, launches the downloads of its children
   * (loadSiblingChildren, whose results are `outcomes`) until one request
   * cannot launch all of them; the rest of the queue is then dropped
   * without a call.  `frame` is the set of queued children and `was` their
   * flags on entry.
   */
  method ServeAll(q: seq<Request<PagedLOD>>, dl: Downloads<PagedLOD>)
    returns (allLaunched: bool, ghost served: seq<Request<PagedLOD>>, ghost outcomes: seq<bool>, ghost frame: set<PagedLOD>, ghost was: map<PagedLOD, bool>)
    requires forall r :: r in q ==> r.node.Servable(r.idSibling)
    modifies QueuedKids(q)`loadedRequested, QueuedKids(q)`parentIDInSiblinghood, dl`freeWorkers
    ensures Turns(q, |q|, served, outcomes, allLaunched) && ServedSoFar(served, outcomes, frame, was)
    ensures frame == old(QueuedKids(q)) && forall c :: c in frame && old(allocated(c)) ==> was[c] == old(c.loadedRequested)
  {
    frame := QueuedKids(q);
    was := StartServing(q);
    allLaunched, served, outcomes := ServeLoop(q, dl, frame, was);
  }

  /** The while loop of launchDownloads, from the whole queue `q` to none of it. */
  method ServeLoop(q: seq<Request<PagedLOD>>, dl: Downloads<PagedLOD>, ghost frame: set<PagedLOD>, ghost was: map<PagedLOD, bool>)
    returns (allLaunched: bool, ghost served: seq<Request<PagedLOD>>, ghost outcomes: seq<bool>)
    requires Serving(q, q, [], [], true, frame, was)
    modifies frame`loadedRequested, frame`parentIDInSiblinghood, dl`freeWorkers
    ensures Serving(q, [], served, outcomes, allLaunched, frame, was)
  {
    allLaunched := true;
    served, outcomes := [], [];
    var queue := q;
    while queue != []
      invariant Serving(q, queue, served, outcomes, allLaunched, frame, was)
      decreases |queue|
    {
      var currentNode := queue[0];
      allLaunched, served, outcomes := ServeInTurn(currentNode, dl, allLaunched, q, queue, served, outcomes, frame, was);
      queue := queue[1..];
    }
  }

  /**
   * launchDownloads after its queue field is cleared: the queue `q0`, whose
   * children are `kids0`, is put in priority order and served by ServeAll.
   */
  method ServeSorted(q0: seq<Request<PagedLOD>>, dl: Downloads<PagedLOD>, ghost kids0: set<PagedLOD>)
    returns (allLaunched: bool, ghost served: seq<Request<PagedLOD>>, ghost outcomes: seq<bool>)
    requires forall r :: r in q0 ==> r.node.Servable(r.idSibling)
    requires kids0 == QueuedKids(q0)
    modifies kids0`loadedRequested, kids0`parentIDInSiblinghood, dl`freeWorkers
    ensures |served| <= |q0| && served == PriorityOrder(q0)[..|served|]
    ensures allLaunched ==> |served| == |q0|
    ensures |q0| > 0 ==> |served| > 0
    ensures |outcomes| == |served| && forall i :: 0 <= i < |served| - 1 ==> outcomes[i]
    ensures allLaunched == (|served| == 0 || outcomes[|served| - 1])
    ensures OutcomesHold(served, outcomes)
    ensures forall c :: c in kids0 && old(allocated(c)) && c !in QueuedKids(served) ==> c.loadedRequested == old(c.loadedRequested)
  {
    var queue: seq<Request<PagedLOD>> := PriorityOrder<PagedLOD>(q0);
    PriorityOrderMembers<PagedLOD>(q0);
    QueuedKidsSubset(queue, q0);
    QueuedKidsSubset(q0, queue);
    ghost var frame, was;
    allLaunched, served, outcomes, frame, was := ServeAll(queue, dl);
    forall c | c in kids0 && old(allocated(c)) && c !in QueuedKids(served)
      ensures c.loadedRequested == old(c.loadedRequested)
    {
      assert c in frame;
    }
  }

  /** Taking the front off a suffix of `q` leaves a shorter suffix. */
  lemma TakeFront<T>(q: seq<T>, queue: seq<T>)
    requires queue != [] && |queue| <= |q| && queue == q[|q| - |queue|..]
    ensures queue[0] == q[|q| - |queue|] && queue[1..] == q[|q| - |queue| + 1..]
  {
  }

  /** Every queued request names a sibling group of distinct children, all of them in `frame`. */
  ghost predicate AllServable(q: seq<Request<PagedLOD>>, frame: set<PagedLOD>)
    reads QueuedNodes(q)`siblingChildren
  {
    forall k :: 0 <= k < |q| ==> q[k].node.Servable(q[k].idSibling) && q[k].node.Kids(q[k].idSibling) <= frame
  }

  /**
   * The requests `served` and their outcomes once the first `k` requests of
   * `q` are taken off: a prefix of them, all but the last launched, and
   * `allLaunched` tells whether the last did too.
   */
  ghost predicate Turns(q: seq<Request<PagedLOD>>, k: int, served: seq<Request<PagedLOD>>, outcomes: seq<bool>, allLaunched: bool)
  {
    && 0 <= k <= |q| && |served| <= k && served == q[..|served|]
    && (allLaunched ==> |served| == k) && (k > 0 ==> |served| > 0)
    && |outcomes| == |served| && (forall i :: 0 <= i < |served| - 1 ==> outcomes[i])
    && allLaunched == (|served| == 0 || outcomes[|served| - 1])
  }

  /** The state of the loop of launchDownloads while `queue` is left of `q`. */
  ghost predicate Serving(q: seq<Request<PagedLOD>>, queue: seq<Request<PagedLOD>>, served: seq<Request<PagedLOD>>, outcomes: seq<bool>,
                          allLaunched: bool, frame: set<PagedLOD>, was: map<PagedLOD, bool>)
    reads QueuedNodes(q)`siblingChildren, frame`loadedRequested, QueuedNodes(served)`siblingChildren
  {
    && |queue| <= |q| && queue == q[|q| - |queue|..]
    && Turns(q, |q| - |queue|, served, outcomes, allLaunched)
    && AllServable(q, frame) && ServedSoFar(served, outcomes, frame, was)
  }

  /**
   * One turn of the loop of launchDownloads, taking `r` off the front of
   * `queue`: it is served only while every earlier one launched all its
   * children.
   */
  method ServeInTurn(r: Request<PagedLOD>, dl: Downloads<PagedLOD>, allLaunched: bool, ghost q: seq<Request<PagedLOD>>, ghost queue: seq<Request<PagedLOD>>,
                     ghost served: seq<Request<PagedLOD>>, ghost outcomes: seq<bool>, ghost frame: set<PagedLOD>, ghost was: map<PagedLOD, bool>)
    returns (allLaunched': bool, ghost served': seq<Request<PagedLOD>>, ghost outcomes': seq<bool>)
    requires queue != [] && r == queue[0] && Serving(q, queue, served, outcomes, allLaunched, frame, was)
    modifies frame`loadedRequested, frame`parentIDInSiblinghood, dl`freeWorkers
    ensures Serving(q, queue[1..], served', outcomes', allLaunched', frame, was)
  {
    ghost var k := |q| - |queue|;
    TakeFront(q, queue);
    allLaunched', served', outcomes' := allLaunched, served, outcomes;
    if allLaunched {
      assert q[..k + 1] == served + [r];
      allLaunched' := ServeNext(r, dl, served, outcomes, frame, was);
      served', outcomes' := served + [r], outcomes + [allLaunched'];
    }
  }

  /** One request served by the loop of launchDownloads while every earlier one launched all its children. */
  method ServeNext(r: Request<PagedLOD>, dl: Downloads<PagedLOD>, ghost served: seq<Request<PagedLOD>>, ghost outcomes: seq<bool>,
                   ghost frame: set<PagedLOD>, ghost was: map<PagedLOD, bool>) returns (ok: bool)
    requires r.node.Servable(r.idSibling) && r.node.Kids(r.idSibling) <= frame
    requires ServedSoFar(served, outcomes, frame, was) && forall i :: 0 <= i < |outcomes| ==> outcomes[i]
    modifies r.node.Kids(r.idSibling)`loadedRequested, r.node.Kids(r.idSibling)`parentIDInSiblinghood, dl`freeWorkers
    ensures ServedSoFar(served + [r], outcomes + [ok], frame, was)
  {
    ghost var touched := QueuedKids(served);
    label before:
    ok := ServeRequest(r, dl);
    forall i | 0 <= i < |served| ensures Requested(served[i]) {
      assert outcomes[i];
      RequestedStays@before(served[i]);
    }
    ghost var kids := r.node.Kids(r.idSibling);
    QueuedKidsFrame@before(served);
    ServedKids(served, r);
    forall c | c in frame && c !in QueuedKids(served + [r])
      ensures c.loadedRequested == was[c]
    {
      assert c !in kids && c !in touched;
    }
    assert served + [r] == served + [r];
    forall i | 0 <= i < |served + [r]| ensures (served + [r])[i].node.Kids((served + [r])[i].idSibling) <= frame {
      if i == |served| {
        assert (served + [r])[i] == r;
      } else {
        assert (served + [r])[i] == served[i];
      }
    }
  }

  /** The children queued by a served request are among the children of the requests served with it. */
  lemma ServedKids(served: seq<Request<PagedLOD>>, r: Request<PagedLOD>)
    ensures QueuedKids(served) + r.node.Kids(r.idSibling) <= QueuedKids(served + [r])
  {
    QueuedKidsSubset(served, served + [r]);
    QueuedKidsHas(served + [r], |served|);
  }

  /**
   * The call to loadSiblingChildren of launchDownloads, on the children as
   * a set: no request is withdrawn, and the result is true exactly when
   * every child is now requested.
   */
  method ServeRequest(r: Request<PagedLOD>, dl: Downloads<PagedLOD>) returns (ok: bool)
    requires r.node.Servable(r.idSibling)
    modifies r.node.Kids(r.idSibling)`loadedRequested, r.node.Kids(r.idSibling)`parentIDInSiblinghood, dl`freeWorkers
    ensures forall c: PagedLOD :: old(allocated(c)) && old(c.loadedRequested) ==> c.loadedRequested
    ensures forall c: PagedLOD :: old(allocated(c)) && c !in r.node.Kids(r.idSibling) ==> c.loadedRequested == old(c.loadedRequested)
    ensures ok <==> Requested(r)
  {
    ghost var kids := r.node.siblingChildren[r.idSibling];
    ghost var flags0 := Flags(kids);
    ok := r.node.LoadSiblingChildren(r.idSibling, dl);
    ghost var budget := Budget(dl.Saturated(), r.node.root.useWorker, old(dl.freeWorkers), |kids|);
    LaunchKeeps(kids, flags0, budget);
    forall c: PagedLOD | old(allocated(c)) && c in r.node.Kids(r.idSibling) && old(c.loadedRequested)
      ensures c.loadedRequested
    {
      var j :| 0 <= j < |kids| && kids[j] == c;
      assert flags0[j];
    }
    LaunchAll(kids, flags0, budget);
    AllRequestedMeaning(kids);
  }

  /** Launching never withdraws a request from the children it runs over. */
  lemma LaunchKeeps(kids: seq<PagedLOD>, flags0: seq<bool>, budget: nat)
    requires |flags0| == |kids| && Flags(kids) == Launch(flags0, budget)
    ensures forall j :: 0 <= j < |kids| && flags0[j] ==> kids[j].loadedRequested
  {
    LaunchCounts(flags0, budget);
  }

  /** After a launch every child is requested exactly when the budget covered the pending ones. */
  lemma LaunchAll(kids: seq<PagedLOD>, flags0: seq<bool>, budget: nat)
    requires |flags0| == |kids| && Flags(kids) == Launch(flags0, budget)
    ensures (forall c :: c in kids ==> c.loadedRequested) <==> Pending(flags0) <= budget
  {
    LaunchCounts(flags0, budget);
    if Pending(flags0) > budget {
      var j :| 0 <= j < |kids| && !Launch(flags0, budget)[j];
      assert kids[j] in kids && !kids[j].loadedRequested;
    }
  }

  /** AC3D.PagedLOD: one tile of the tree, loaded from one file. */
  class PagedLOD {
    const root: Root
    /** The sibling of the parent tile this tile refines; null for a first-level tile. */
    const LODParent: Sibling?
    const level: int
    const subfolder: Escaped
    const url: Escaped

    var loaded: bool
    var loadedRequested: bool
    var numberOfFilesToLoad: int
    var numberOfFilesLoaded: int
    var loadingError: bool
    var lastError: int
    var parentIDInSiblinghood: Option<int>
    var siblings: seq<Sibling>
    var siblingChildren: seq<seq<PagedLOD>>
    /** Number of materials (textures) in materialsUsed. */
    var materials: nat

    /**
     * new AC3D.PagedLOD(...) with init: both names have their pluses
     * escaped and the file name loses its first `_start`.
     */
    constructor (root: Root, LODParent: Sibling?, subfolder: string, url: string, level: int)
      ensures this.root == root && this.LODParent == LODParent && this.level == level
      ensures this.subfolder == EscapePlus(subfolder) && this.url == NodeUrl(url)
      ensures !loaded && !loadedRequested && !loadingError && lastError == 0
      ensures numberOfFilesToLoad == 0 && numberOfFilesLoaded == 0 && parentIDInSiblinghood.None?
      ensures siblings == [] && siblingChildren == [] && materials == 0
    {
      this.root := root;
      this.LODParent := LODParent;
      this.level := level;
      this.subfolder := EscapePlus(subfolder);
      this.url := NodeUrl(url);
      loaded := false;
      loadedRequested := false;
      loadingError := false;
      lastError := 0;
      numberOfFilesToLoad := 0;
      numberOfFilesLoaded := 0;
      parentIDInSiblinghood := None;
      siblings := [];
      siblingChildren := [];
      materials := 0;
    }

    ghost function SiblingSet(): set<Sibling>
      reads this
    {
      set s | s in siblings
    }

    /** Sibling `i`, as a frame. */
    ghost function SiblingAt(i: int): set<Sibling>
      reads this`siblings
    {
      if 0 <= i < |siblings| then {siblings[i]} else {}
    }

    ghost function ParentSet(): set<Sibling>
    {
      if LODParent == null then {} else {LODParent}
    }

    /** The child tiles of sibling `i`. */
    ghost function Kids(i: int): set<PagedLOD>
      reads this`siblingChildren
    {
      if 0 <= i < |siblingChildren| then set k | k in siblingChildren[i] else {}
    }

    /** A first-level tile reports its completion to the root. */
    predicate NotifiesRoot()
      reads this
    {
      LODParent == null && parentIDInSiblinghood.Some?
    }

    /** The index a first-level tile reports is one of the root's tiles. */
    predicate Anchored()
      reads this, root
    {
      NotifiesRoot() ==> 0 <= parentIDInSiblinghood.value < |root.children|
    }

    /** The siblings the root shows when this tile finishes loading. */
    ghost function Finishing(): set<Sibling>
      reads this, root, root.children
    {
      if NotifiesRoot() then root.ShownBy(parentIDInSiblinghood.value) else {}
    }

    /**
     * loadingFinished: after an error the time of the error is recorded;
     * otherwise the tile is loaded and counts as a loaded child of its
     * parent sibling, or, on the first level, the root shows it.
     */
    method LoadingFinished(now: int)
      requires Anchored()
      modifies this`loaded, this`lastError, ParentSet()`numberChildrenLoaded, root`numberChildrenLoaded, Finishing()`visible
      ensures loadingError ==> lastError == now && loaded == old(loaded)
      ensures !loadingError ==> loaded && lastError == old(lastError)
      ensures LODParent != null ==>
        LODParent.numberChildrenLoaded == old(LODParent.numberChildrenLoaded) + (if loadingError then 0 else 1)
      ensures root.numberChildrenLoaded == old(root.numberChildrenLoaded) + (if !loadingError && NotifiesRoot() then 1 else 0)
      ensures forall s :: s in old(Finishing()) ==> s.visible == (!loadingError || old(s.visible))
    {
      if loadingError {
        ErrorLoadedNode(now);
      } else {
        loaded := true;
        if LODParent == null {
          if parentIDInSiblinghood.Some? {
            root.OnChildLoaded(parentIDInSiblinghood.value);
          }
        } else {
          LODParent.numberChildrenLoaded := LODParent.numberChildrenLoaded + 1;
        }
      }
    }

    /** errorLoadedNode: remember when the error happened (the loader goes back to its pool). */
    method ErrorLoadedNode(now: int)
      modifies this`lastError
      ensures lastError == now
    {
      lastError := now;
    }

    /** unblockNodeForLoading: the tile may be requested again. */
    method UnblockNodeForLoading()
      modifies this`loaded, this`loadedRequested, this`loadingError, this`lastError
      ensures !loaded && !loadedRequested && !loadingError && lastError == 0
    {
      loaded := false;
      loadedRequested := false;
      loadingError := false;
      lastError := 0;
    }

    /**
     * The first step of updatePagedLODTree for a tile that is not loaded: a
     * tile that failed is unblocked once more than WAIT_AFTER_ERROR has
     * passed since the failure.
     */
    method RetryAfterError(now: int) returns (unblocked: bool)
      modifies this`loaded, this`loadedRequested, this`loadingError, this`lastError
      ensures unblocked <==> !old(loaded) && old(loadingError) && now - old(lastError) > WAIT_AFTER_ERROR
      ensures unblocked ==> !loaded && !loadedRequested && !loadingError && lastError == 0
      ensures !unblocked ==> loaded == old(loaded) && loadedRequested == old(loadedRequested) &&
                             loadingError == old(loadingError) && lastError == old(lastError)
    {
      unblocked := false;
      if !loaded && loadingError && now - lastError > WAIT_AFTER_ERROR {
        UnblockNodeForLoading();
        unblocked := true;
      }
    }

    /**
     * onLoadingError: the tile is marked as failed; an error before any
     * data was processed (no place given, or the worker) finishes the load
     * at once, a later one counts as one more file handled.
     */
    method OnLoadingError(place: ErrorPlace, now: int) returns (finished: bool)
      requires Anchored()
      modifies this`loadingError, this`numberOfFilesLoaded
      modifies this`loaded, this`lastError, ParentSet()`numberChildrenLoaded, root`numberChildrenLoaded, Finishing()`visible
      ensures loadingError && loaded == old(loaded)
      ensures numberOfFilesLoaded == old(numberOfFilesLoaded) + (if BeforeData(place) then 0 else 1)
      ensures finished <==> BeforeData(place) || numberOfFilesLoaded >= numberOfFilesToLoad
      ensures lastError == if finished then now else old(lastError)
      ensures LODParent != null ==> LODParent.numberChildrenLoaded == old(LODParent.numberChildrenLoaded)
      ensures root.numberChildrenLoaded == old(root.numberChildrenLoaded)
      ensures forall s :: s in old(Finishing()) ==> s.visible == old(s.visible)
    {
      loadingError := true;
      if place.Unspecified? || place.what == "worker" {
        LoadingFinished(now);
        finished := true;
      } else {
        numberOfFilesLoaded := numberOfFilesLoaded + 1;
        finished := numberOfFilesLoaded >= numberOfFilesToLoad;
        if finished {
          LoadingFinished(now);
        }
      }
    }

    /**
     * addTexture: a texture with an image becomes one more material and one
     * more file handled, which may finish the load; one without an image is
     * a loading error.
     */
    method AddTexture(hasImage: bool, now: int) returns (finished: bool)
      requires Anchored()
      modifies this`materials, this`loadingError, this`numberOfFilesLoaded
      modifies this`loaded, this`lastError, ParentSet()`numberChildrenLoaded, root`numberChildrenLoaded, Finishing()`visible
      ensures materials == old(materials) + (if hasImage then 1 else 0)
      ensures loadingError == (old(loadingError) || !hasImage)
      ensures numberOfFilesLoaded == old(numberOfFilesLoaded) + 1
      ensures finished <==> numberOfFilesLoaded >= numberOfFilesToLoad
      ensures finished ==> loaded == !loadingError || old(loaded)
      ensures !finished ==> loaded == old(loaded) && lastError == old(lastError)
      ensures finished && loadingError ==> lastError == now
    {
      if hasImage {
        materials := materials + 1;
        numberOfFilesLoaded := numberOfFilesLoaded + 1;
        finished := numberOfFilesLoaded >= numberOfFilesToLoad;
        if finished {
          LoadingFinished(now);
        }
      } else {
        finished := OnLoadingError(Place("No image"), now);
      }
    }

    /**
     * addGeometry: the mesh goes to the first sibling with the given name
     * (to none when no sibling has it), and one more file is handled, which
     * may finish the load.
     */
    method AddGeometry(nodeName: string, now: int) returns (target: Option<nat>, finished: bool)
      requires Anchored()
      modifies SiblingSet()`meshCount, this`numberOfFilesLoaded
      modifies this`loaded, this`lastError, ParentSet()`numberChildrenLoaded, root`numberChildrenLoaded, Finishing()`visible
      ensures target.Some? ==> target.value < |siblings| && siblings[target.value].name == nodeName
      ensures target.Some? ==> forall k :: 0 <= k < target.value ==> siblings[k].name != nodeName
      ensures target.None? ==> forall k :: 0 <= k < |siblings| ==> siblings[k].name != nodeName
      ensures forall s :: s in old(SiblingSet()) ==>
        s.meshCount == old(s.meshCount) + (if target.Some? && s == siblings[target.value] then 1 else 0)
      ensures numberOfFilesLoaded == old(numberOfFilesLoaded) + 1
      ensures finished <==> numberOfFilesLoaded >= numberOfFilesToLoad
      ensures finished ==> (loadingError ==> lastError == now && loaded == old(loaded)) && (!loadingError ==> loaded)
      ensures !finished ==> loaded == old(loaded) && lastError == old(lastError)
    {
      target := None;
      var idSibling := 0;
      while target.None? && idSibling < |siblings|
        invariant 0 <= idSibling <= |siblings|
        invariant target.None? ==> forall k :: 0 <= k < idSibling ==> siblings[k].name != nodeName
        invariant target.Some? ==> target.value < idSibling && siblings[target.value].name == nodeName
        invariant target.Some? ==> forall k :: 0 <= k < target.value ==> siblings[k].name != nodeName
      {
        if siblings[idSibling].name == nodeName {
          target := Some(idSibling);
        }
        idSibling := idSibling + 1;
      }
      if target.Some? {
        siblings[target.value].AddMesh();
      }
      numberOfFilesLoaded := numberOfFilesLoaded + 1;
      finished := numberOfFilesLoaded >= numberOfFilesToLoad;
      if finished {
        LoadingFinished(now);
      }
    }

    /**
     * The counters set at the end of updateSiblingsData: `count` files are
     * expected and none is handled yet, so a tile with no file to load
     * finishes at once.
     */
    method SetFilesToLoad(count: int, now: int) returns (finished: bool)
      requires Anchored()
      modifies this`numberOfFilesToLoad, this`numberOfFilesLoaded
      modifies this`loaded, this`lastError, ParentSet()`numberChildrenLoaded, root`numberChildrenLoaded, Finishing()`visible
      ensures numberOfFilesToLoad == count && numberOfFilesLoaded == 0
      ensures finished <==> count <= 0
      ensures finished ==> (loadingError ==> lastError == now && loaded == old(loaded)) && (!loadingError ==> loaded)
      ensures !finished ==> loaded == old(loaded) && lastError == old(lastError)
    {
      numberOfFilesToLoad := count;
      numberOfFilesLoaded := 0;
      finished := numberOfFilesLoaded >= numberOfFilesToLoad;
      if finished {
        LoadingFinished(now);
      }
    }

    /** The child groups of sibling `idSibling` exist, hold distinct tiles, and share this tile's root. */
    ghost predicate Servable(idSibling: int)
      reads this`siblingChildren
    {
      0 <= idSibling < |siblingChildren| &&
      (forall a, b :: 0 <= a < b < |siblingChildren[idSibling]| ==> siblingChildren[idSibling][a] != siblingChildren[idSibling][b]) &&
      (forall a :: 0 <= a < |siblingChildren[idSibling]| ==> siblingChildren[idSibling][a].root == root)
    }

    /** Every loaded field of the tile is back to its initial value (deleteData). */
    predicate Cleared()
      reads this
    {
      siblings == [] && siblingChildren == [] && materials == 0 && !loaded && !loadedRequested &&
      numberOfFilesToLoad == 0 && numberOfFilesLoaded == 0 && !loadingError && lastError == 0 &&
      parentIDInSiblinghood.None?
    }

    /**
     * loadLOD: a tile already requested counts as launched.  Otherwise the
     * load starts unless the download tables are full or, with workers, no
     * worker is idle; a started load takes a worker and records the index
     * among the root's tiles when one is given.  The file request itself is
     * not modelled.
     */
    method LoadLOD(idChild: Option<int>, dl: Downloads<PagedLOD>) returns (ok: bool)
      modifies this`loadedRequested, this`parentIDInSiblinghood, dl`freeWorkers
      ensures ok <==> old(loadedRequested) || (!dl.Saturated() && (root.useWorker ==> old(dl.freeWorkers) > 0))
      ensures loadedRequested == ok
      ensures var started := ok && !old(loadedRequested);
        dl.freeWorkers == old(dl.freeWorkers) - (if started && root.useWorker then 1 else 0) &&
        parentIDInSiblinghood == if started && idChild.Some? then idChild else old(parentIDInSiblinghood)
    {
      if loadedRequested {
        return true;
      }
      if dl.Saturated() {
        loadedRequested := false;
        return false;
      }
      if root.useWorker {
        var got := dl.TakeWorker();
        if !got {
          loadedRequested := false;
          return false;
        }
      }
      if idChild.Some? {
        parentIDInSiblinghood := idChild;
      }
      loadedRequested := true;
      ok := true;
    }

    /**
     * loadSiblingChildren: loadLOD for each child of sibling `idSibling` not
     * yet requested, in order, until one is refused (the `&&` stops calling
     * loadLOD after that).  The result tells whether every child is now
     * requested.
     */
    method LoadSiblingChildren(idSibling: int, dl: Downloads<PagedLOD>) returns (ok: bool)
      requires Servable(idSibling)
      modifies Kids(idSibling)`loadedRequested, Kids(idSibling)`parentIDInSiblinghood, dl`freeWorkers
      ensures var kids := siblingChildren[idSibling];
        Flags(kids) == Launch(old(Flags(kids)), Budget(dl.Saturated(), root.useWorker, old(dl.freeWorkers), |kids|))
      ensures var kids := siblingChildren[idSibling];
        ok <==> Pending(old(Flags(kids))) <= Budget(dl.Saturated(), root.useWorker, old(dl.freeWorkers), |kids|)
      ensures var pending := Pending(old(Flags(siblingChildren[idSibling])));
        dl.freeWorkers ==
          if root.useWorker && !dl.Saturated() then
            (if pending <= old(dl.freeWorkers) then old(dl.freeWorkers) - pending else 0)
          else old(dl.freeWorkers)
    {
      var kids := siblingChildren[idSibling];
      ghost var flags0 := Flags(kids);
      ghost var budget := Budget(dl.Saturated(), root.useWorker, dl.freeWorkers, |kids|);
      ok := LoadChildren(kids, root, dl, flags0);
      assert siblingChildren[idSibling] == kids && old(Flags(kids)) == flags0;
      assert budget == Budget(dl.Saturated(), root.useWorker, old(dl.freeWorkers), |kids|);
      SweepLaunch(flags0, budget);
      assert Flags(kids) == Sweep(flags0, budget).flags;
    }

    /**
     * addSibling_downloadQueue: the children of sibling `idSibling` are
     * queued for download, with the given distance, when one of them is not
     * yet requested.
     */
    method AddSiblingDownloadQueue(idSibling: int, distance: real)
      requires 0 <= idSibling < |siblingChildren|
      modifies root`downloadQueue
      ensures var kids := siblingChildren[idSibling];
        root.downloadQueue == old(root.downloadQueue) +
          if exists j :: 0 <= j < |kids| && !kids[j].loadedRequested then [Request(this, distance, level, idSibling)] else []
    {
      var kids := siblingChildren[idSibling];
      var loadNeeded := false;
      var idChild := 0;
      while idChild < |kids|
        invariant 0 <= idChild <= |kids|
        invariant !loadNeeded && forall j :: 0 <= j < idChild ==> kids[j].loadedRequested
      {
        if !kids[idChild].loadedRequested {
          loadNeeded := true;
          break;
        }
        idChild := idChild + 1;
      }
      if loadNeeded {
        root.AddToDownloadQueue(this, distance, level, idSibling);
      }
    }

    /**
     * updateSiblingLODTree for one sibling, without the walk into its child
     * tiles: `inView` is the frustum test of the sibling, `outOfFrustum`
     * that of an ancestor, `diameter` its projected diameter in pixels.  The
     * sibling ends visible exactly when Decide says so, marks itself as a
     * visible ancestor for its subtree when it is, records the time when it
     * is hidden, and queues its children when it refines.
     */
    method UpdateSibling(idSibling: int, inView: bool, outOfFrustum: bool, diameter: real, now: int) returns (d: Decision)
      requires 0 <= idSibling < |siblings| && idSibling < |siblingChildren|
      modifies SiblingAt(idSibling)`visible, SiblingAt(idSibling)`ancestorVisible, SiblingAt(idSibling)`lastSeen, root`downloadQueue
      ensures var s := siblings[idSibling];
        d == Decide(inView && !outOfFrustum, RatioOrOne(root.pixelRatio) * s.maxLODRange, diameter,
                    |siblingChildren[idSibling]|, s.numberChildrenLoaded) &&
        s.visible == Visible(d) && s.ancestorVisible == s.visible &&
        s.lastSeen == if old(s.visible) && !s.visible then At(now) else old(s.lastSeen)
      ensures var kids := siblingChildren[idSibling];
        root.downloadQueue == old(root.downloadQueue) +
          if d.Refining? && exists j :: 0 <= j < |kids| && !kids[j].loadedRequested
          then [Request(this, d.priority, level, idSibling)] else []
    {
      var s := siblings[idSibling];
      var maxRange := RatioOrOne(root.pixelRatio) * s.maxLODRange;
      d := Decide(inView && !outOfFrustum, maxRange, diameter, |siblingChildren[idSibling]|, s.numberChildrenLoaded);
      s.ancestorVisible := false;
      match d
      case Hidden =>
        if s.visible {
          s.lastSeen := At(now);
          s.SetVisible(false);
        }
      case Shown =>
        s.SetVisible(true);
        s.ancestorVisible := true;
      case Refining(priority) =>
        s.SetVisible(true);
        s.ancestorVisible := true;
        AddSiblingDownloadQueue(idSibling, priority);
      case Replaced =>
        if s.visible {
          s.lastSeen := At(now);
        }
        s.SetVisible(false);
    }

    /**
     * deleteData: the tile forgets its siblings, child tiles and materials
     * and is no longer loaded or requested (the objects go back to their
     * pools, which are not modelled).
     */
    method DeleteData()
      modifies this`siblings, this`siblingChildren, this`materials, this`loaded, this`loadedRequested
      modifies this`numberOfFilesToLoad, this`numberOfFilesLoaded, this`loadingError, this`lastError, this`parentIDInSiblinghood
      ensures Cleared()
    {
      siblings := [];
      siblingChildren := [];
      materials := 0;
      loaded := false;
      loadedRequested := false;
      numberOfFilesToLoad := 0;
      numberOfFilesLoaded := 0;
      loadingError := false;
      lastError := 0;
      parentIDInSiblinghood := None;
    }

    /**
     * removeSiblingExpiredChildren: the child tiles of sibling `idSibling`
     * are deleted when none of them keeps the group alive (Keeps, at the
     * root's frame time) and the sibling, in view (`inView`) with projected
     * diameter `diameter`, would not ask for them again at once.  Only the
     * loaded children are deleted; the sibling then has no loaded child.
     */
    method RemoveSiblingExpiredChildren(idSibling: int, inView: bool, diameter: real) returns (removed: bool)
      requires 0 <= idSibling < |siblings| && Servable(idSibling) && this !in Kids(idSibling)
      modifies Kids(idSibling)`siblings, Kids(idSibling)`siblingChildren, Kids(idSibling)`materials
      modifies Kids(idSibling)`loaded, Kids(idSibling)`loadedRequested, Kids(idSibling)`numberOfFilesToLoad
      modifies Kids(idSibling)`numberOfFilesLoaded, Kids(idSibling)`loadingError, Kids(idSibling)`lastError
      modifies Kids(idSibling)`parentIDInSiblinghood, SiblingAt(idSibling)`numberChildrenLoaded
      ensures var kids := siblingChildren[idSibling];
        removed <==>
          (forall j :: 0 <= j < |kids| ==> !old(Keeps(View(kids[j]), root.frameTimestamp, root.expiryTime))) &&
          !ParentWantsChildren(inView, RatioOrOne(root.pixelRatio) * siblings[idSibling].maxLODRange, diameter)
      ensures var kids := siblingChildren[idSibling];
        forall j :: 0 <= j < |kids| ==> if removed && old(kids[j].loaded) then kids[j].Cleared() else unchanged(kids[j])
      ensures siblings[idSibling].numberChildrenLoaded == if removed then 0 else old(siblings[idSibling].numberChildrenLoaded)
    {
      var kids := siblingChildren[idSibling];
      var s := siblings[idSibling];
      var childrenExist := 0;
      for idChild := 0 to |kids|
        invariant childrenExist == 0 <==> forall j :: 0 <= j < idChild ==> !Keeps(View(kids[j]), root.frameTimestamp, root.expiryTime)
      {
        if Keeps(View(kids[idChild]), root.frameTimestamp, root.expiryTime) {
          childrenExist := childrenExist + 1;
        }
      }
      removed := false;
      if childrenExist == 0 {
        if ParentWantsChildren(inView, RatioOrOne(root.pixelRatio) * s.maxLODRange, diameter) {
          return;
        }
        var i := |kids|;
        while i > 0
          invariant 0 <= i <= |kids|
          invariant forall j :: i <= j < |kids| ==> if old(kids[j].loaded) then kids[j].Cleared() else unchanged(kids[j])
          invariant forall j :: 0 <= j < i ==> unchanged(kids[j])
        {
          i := i - 1;
          if kids[i].loaded {
            kids[i].DeleteData();
          }
        }
        s.numberChildrenLoaded := 0;
        removed := true;
      }
    }

    /** setVisible(true): every sibling is shown. */
    method ShowSiblings()
      modifies SiblingSet()`visible
      ensures forall s :: s in SiblingSet() ==> s.visible
    {
      for i := 0 to |siblings|
        invariant forall k :: 0 <= k < i ==> siblings[k].visible
      {
        siblings[i].SetVisible(true);
      }
    }

    /**
     * setVisible(false): every sibling is hidden, a sibling that was visible
     * records the time, and each takes over the ancestor flag of the parent
     * sibling.
     */
    method HideSiblings(now: int)
      requires LODParent != null
      modifies SiblingSet()`visible, SiblingSet()`lastSeen, SiblingSet()`ancestorVisible
      ensures forall s :: s in SiblingSet() ==>
        !s.visible && s.ancestorVisible == old(LODParent.ancestorVisible) &&
        s.lastSeen == if old(s.visible) then At(now) else old(s.lastSeen)
    {
      for i := 0 to |siblings|
        invariant LODParent.ancestorVisible == old(LODParent.ancestorVisible)
        invariant forall k :: 0 <= k < i ==>
          !siblings[k].visible && siblings[k].ancestorVisible == old(LODParent.ancestorVisible) &&
          siblings[k].lastSeen == if old(siblings[k].visible) then At(now) else old(siblings[k].lastSeen)
        invariant forall k :: i <= k < |siblings| && siblings[k] !in siblings[..i] ==>
          siblings[k].visible == old(siblings[k].visible) && siblings[k].lastSeen == old(siblings[k].lastSeen)
      {
        var s := siblings[i];
        if s.visible {
          s.lastSeen := At(now);
        }
        s.ancestorVisible := LODParent.ancestorVisible;
        s.SetVisible(false);
      }
    }
  }

  /** Ac3dROOT: the first-level tiles, the phase machine and the download queue. */
  class Root {
    const expiryTime: int
    const useWorker: bool
    var frameTimestamp: int
    var lastRemoveExpired: int
    var currentState: Phase
    var currentIndex: int
    var currentRepeatDownloads: int
    var numberChildrenLoaded: int
    var downloadQueue: seq<Request<PagedLOD>>
    var children: seq<PagedLOD>
    var pixelRatio: real

    /** new AC3D.Ac3dROOT at time `now`. */
    constructor (now: int)
      ensures expiryTime == EXPIRY_TIME && useWorker
      ensures frameTimestamp == now && lastRemoveExpired == now + 200
      ensures currentState == Idle && currentIndex == 0 && currentRepeatDownloads == 0
      ensures numberChildrenLoaded == 0 && downloadQueue == [] && children == [] && pixelRatio == 1.0
    {
      expiryTime := EXPIRY_TIME;
      useWorker := true;
      frameTimestamp := now;
      lastRemoveExpired := now + 200;
      currentState := Idle;
      currentIndex := 0;
      currentRepeatDownloads := 0;
      numberChildrenLoaded := 0;
      downloadQueue := [];
      children := [];
      pixelRatio := 1.0;
    }

    /** addToDownloadQueue. */
    method AddToDownloadQueue(node: PagedLOD, distance: real, level: int, idSibling: int)
      modifies this`downloadQueue
      ensures downloadQueue == old(downloadQueue) + [Request(node, distance, level, idSibling)]
    {
      downloadQueue := downloadQueue + [Request(node, distance, level, idSibling)];
    }

    /**
     * launchDownloads: the queue is put in priority order (largest distance
     * first, then lowest level) and served from the front as ServeAll
     * says; the queue ends empty and the phase becomes RemoveReady.
     * `allLaunched` is loadLaunched at the end, `served` the requests whose
     * children were asked for, in order, and `outcomes` what each call of
     * loadSiblingChildren returned: every call but the last succeeded, a
     * call succeeded exactly when all its children are requested, and a
     * child of no served request keeps its flag.
     */
    method LaunchDownloads(dl: Downloads<PagedLOD>) returns (allLaunched: bool, ghost served: seq<Request<PagedLOD>>, ghost outcomes: seq<bool>)
      requires forall r :: r in downloadQueue ==> r.node.Servable(r.idSibling)
      modifies this`downloadQueue, this`currentState
      modifies QueuedKids(downloadQueue)`loadedRequested, QueuedKids(downloadQueue)`parentIDInSiblinghood, dl`freeWorkers
      ensures downloadQueue == [] && currentState == RemoveReady
      ensures |served| <= |old(downloadQueue)| && served == PriorityOrder(old(downloadQueue))[..|served|]
      ensures allLaunched ==> |served| == |old(downloadQueue)|
      ensures |old(downloadQueue)| > 0 ==> |served| > 0
      ensures |outcomes| == |served| && forall i :: 0 <= i < |served| - 1 ==> outcomes[i]
      ensures allLaunched == (|served| == 0 || outcomes[|served| - 1])
      ensures OutcomesHold(served, outcomes)
      ensures forall c :: c in old(QueuedKids(downloadQueue)) && old(allocated(c)) && c !in QueuedKids(served) ==> c.loadedRequested == old(c.loadedRequested)
    {
      var q0 := downloadQueue;
      ghost var kids0 := QueuedKids(q0);
      downloadQueue := [];
      currentState := RemoveReady;
      assert QueuedKids(q0) == kids0;
      allLaunched, served, outcomes := ServeSorted(q0, dl, kids0);
    }

    /** currentState, currentIndex and currentRepeatDownloads read as one cursor. */
    function Position(): (c: Cursor)
      reads this`currentState, this`currentIndex, this`currentRepeatDownloads
    {
      Cursor(currentState, currentIndex, currentRepeatDownloads)
    }

    /**
     * updateLODTree_part: the first-level tiles from currentIndex, at most
     * UPLOAD_STEP of them, that are not yet requested start loading with
     * their own index; once the last tile is reached the downloads are
     * launched next, otherwise the cursor moves on.
     */
    method UpdatePart(dl: Downloads<PagedLOD>)
      requires currentState == Updating && 0 <= currentIndex
      requires forall c :: c in children ==> c.root == this
      modifies this`currentState, this`currentIndex
      modifies (set c | c in children)`loadedRequested, (set c | c in children)`parentIDInSiblinghood, dl`freeWorkers
      ensures Position() == Tick(old(Position()), |children|)
      ensures forall c :: c in children && old(c.loadedRequested) ==> c.loadedRequested
      ensures forall j :: old(currentIndex) <= j < |children| && j < old(currentIndex) + UPLOAD_STEP ==>
        children[j].loadedRequested || dl.Saturated() || (useWorker && dl.freeWorkers == 0)
      ensures dl.freeWorkers <= old(dl.freeWorkers)
    {
      var endIndex := if |children| < currentIndex + UPLOAD_STEP then |children| else currentIndex + UPLOAD_STEP;
      var i := currentIndex;
      while i < endIndex
        invariant currentState == old(currentState) && currentIndex == old(currentIndex)
        invariant currentIndex <= i && (i <= endIndex || i == currentIndex)
        invariant forall c :: c in children && old(c.loadedRequested) ==> c.loadedRequested
        invariant forall j :: currentIndex <= j < i ==>
          children[j].loadedRequested || dl.Saturated() || (useWorker && dl.freeWorkers == 0)
        invariant dl.freeWorkers <= old(dl.freeWorkers)
        invariant dl.Saturated() == old(dl.Saturated())
      {
        if !children[i].loadedRequested {
          var _ := children[i].LoadLOD(Some(i), dl);
        }
        i := i + 1;
      }
      if endIndex == |children| {
        currentState := Phase.LaunchDownloads;
      } else {
        currentIndex := currentIndex + UPLOAD_STEP;
      }
    }

    /**
     * removeExpiredChildren: only in the Idle and RemoveReady phases; the
     * frame time is taken, an eviction pass runs when more than 1.2 expiry
     * periods have passed since the last one (and the next is held off
     * 200 ms more), and the cycle returns to Idle.
     */
    method RemoveExpiredChildren(now: int) returns (swept: bool)
      modifies this`frameTimestamp, this`lastRemoveExpired, this`currentState
      ensures old(currentState) != Idle && old(currentState) != RemoveReady ==>
        !swept && frameTimestamp == old(frameTimestamp) && lastRemoveExpired == old(lastRemoveExpired) &&
        currentState == old(currentState)
      ensures old(currentState) == Idle || old(currentState) == RemoveReady ==>
        frameTimestamp == now && currentState == Idle &&
        (swept <==> SweepDue(now, old(lastRemoveExpired), expiryTime)) &&
        lastRemoveExpired == if swept then now + 200 else old(lastRemoveExpired)
    {
      swept := false;
      if currentState != Idle && currentState != RemoveReady {
        return;
      }
      frameTimestamp := now;
      if SweepDue(frameTimestamp, lastRemoveExpired, expiryTime) {
        lastRemoveExpired := frameTimestamp + 200;
        swept := true;
      }
      currentState := Idle;
    }

    /**
     * updateLODTree: one step of the phase machine; processDownloads
     * runs in the Idle and counting phases, the tiles are walked, the
     * queue is launched and expired tiles are evicted, each in its turn.
     * The cursor follows Tick.
     */
    method UpdateLODTree(now: int, dl: Downloads<PagedLOD>)
      requires 0 <= currentIndex
      requires forall c :: c in children ==> c.root == this
      requires forall r :: r in downloadQueue ==> r.node.Servable(r.idSibling)
      modifies this`currentState, this`currentIndex, this`currentRepeatDownloads, this`downloadQueue
      modifies this`frameTimestamp, this`lastRemoveExpired
      modifies (set c | c in children)`loadedRequested, (set c | c in children)`parentIDInSiblinghood, dl`freeWorkers
      modifies QueuedKids(downloadQueue)`loadedRequested, QueuedKids(downloadQueue)`parentIDInSiblinghood
      ensures Position() == Tick(old(Position()), |children|)
      ensures 0 <= currentIndex
    {
      match currentState
      case Idle =>
        currentIndex := 0;
        currentRepeatDownloads := 1;
        currentState := ProcessDownloads;
      case ProcessDownloads =>
        if currentRepeatDownloads < MAX_REPEAT_DOWNLOADS {
          currentRepeatDownloads := currentRepeatDownloads + 1;
        }
        if currentRepeatDownloads >= MAX_REPEAT_DOWNLOADS {
          currentState := Updating;
        }
      case Updating =>
        UpdatePart(dl);
      case LaunchDownloads =>
        var _, _, _ := LaunchDownloads(dl);
      case RemoveReady =>
        var _ := RemoveExpiredChildren(now);
      case Removing =>
    }

    /** The siblings onChildLoaded(i) shows. */
    ghost function ShownBy(i: int): set<Sibling>
      reads this, children
    {
      if 0 <= i < |children| then children[i].SiblingSet() else {}
    }

    /**
     * onChildLoaded: the first-level tile `i` is shown at once, so no hole
     * appears before the next tree update, and one more tile counts as loaded.
     */
    method OnChildLoaded(i: int)
      requires 0 <= i < |children|
      modifies this`numberChildrenLoaded, ShownBy(i)`visible
      ensures numberChildrenLoaded == old(numberChildrenLoaded) + 1
      ensures forall s :: s in old(ShownBy(i)) ==> s.visible
    {
      children[i].ShowSiblings();
      numberChildrenLoaded := numberChildrenLoaded + 1;
    }
  }
}
