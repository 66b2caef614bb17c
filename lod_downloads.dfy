/**
 * The global download tables the paged-LOD tree shares: the image slot
 * table (AC3D.toProcessImages with its free-slot counter and id counter),
 * the geometry queue (AC3D.toProcessGeometries), the alternation between
 * the two in processDownloads, and the Web Worker pool, reduced to a count
 * of idle workers.  Image decoding by the browser is an external event
 * (ImageDecoded).  The node an entry belongs to is a type parameter.
 */
module LodDownloads {
  import opened Wrappers

  datatype ImageStatus = ToLoad | Loading | Loaded

  /** One slot of the image table; the blob and the file name are not modelled. */
  datatype ImageEntry<N> = ImageEntry(node: N, idImage: int, status: ImageStatus, hasTexture: bool, date: int)

  /** One entry of the geometry queue; the decoded CTM blob is not modelled. */
  datatype GeometryEntry<N> = GeometryEntry(node: N, name: string)

  datatype ProcessState = ProcessImages | ProcessGeometry

  type Slots<N> = seq<Option<ImageEntry<N>>>

  /** Queue length above which loadLOD refuses new loads. */
  const MAX_QUEUED: int := 50

  /** Number of Web Workers the worker manager keeps (MAX_INSTANCES). */
  const MAX_WORKERS: nat := 4

  // ----- specification functions over the slot table -----

  predicate IsLoaded<N>(e: Option<ImageEntry<N>>)
  {
    e.Some? && e.value.status == Loaded
  }

  /** Number of empty (null) slots. */
  function FreeSlots<N>(s: Slots<N>): nat
    ensures FreeSlots(s) <= |s|
  {
    if |s| == 0 then 0 else FreeSlots(s[..|s| - 1]) + (if s[|s| - 1].None? then 1 else 0)
  }

  /** Number of slots holding a decoded (or failed) image. */
  function LoadedSlots<N>(s: Slots<N>): nat
  {
    if |s| == 0 then 0 else LoadedSlots(s[..|s| - 1]) + (if IsLoaded(s[|s| - 1]) then 1 else 0)
  }

  /** The nodes updateDownloads hands a texture to, in slot order. */
  function Delivered<N>(s: Slots<N>): seq<N>
  {
    if |s| == 0 then []
    else
      var last := s[|s| - 1];
      Delivered(s[..|s| - 1]) + (if IsLoaded(last) && last.value.hasTexture then [last.value.node] else [])
  }

  /** The table after updateDownloads: every decoded slot is emptied, the others stay. */
  function Swept<N>(s: Slots<N>): (r: Slots<N>)
    ensures |r| == |s|
    ensures forall i :: 0 <= i < |s| ==> r[i] == if IsLoaded(s[i]) then None else s[i]
  {
    if |s| == 0 then [] else Swept(s[..|s| - 1]) + [if IsLoaded(s[|s| - 1]) then None else s[|s| - 1]]
  }

  /** Sweeping frees exactly the decoded slots. */
  lemma {:induction false} SweptFreeSlots<N>(s: Slots<N>)
    ensures FreeSlots(Swept(s)) == FreeSlots(s) + LoadedSlots(s)
    ensures LoadedSlots(Swept(s)) == 0
  {
    if |s| > 0 {
      var t := s[..|s| - 1];
      SweptFreeSlots(t);
      assert Swept(s)[..|s| - 1] == Swept(t);
    }
  }

  /** Updating one slot moves the free count by what that slot held. */
  lemma {:induction false} FreeSlotsUpdate<N>(s: Slots<N>, k: nat, e: Option<ImageEntry<N>>)
    requires k < |s|
    ensures FreeSlots(s[k := e]) + (if s[k].None? then 1 else 0) == FreeSlots(s) + (if e.None? then 1 else 0)
  {
    if k < |s| - 1 {
      assert s[k := e][..|s| - 1] == s[..|s| - 1][k := e];
      FreeSlotsUpdate(s[..|s| - 1], k, e);
    } else {
      assert s[k := e][..|s| - 1] == s[..|s| - 1];
    }
  }

  /** Appending a filled slot leaves the free count alone. */
  lemma FreeSlotsAppend<N>(s: Slots<N>, e: ImageEntry<N>)
    ensures FreeSlots(s + [Some(e)]) == FreeSlots(s)
  {
    assert (s + [Some(e)])[..|s|] == s;
  }

  /** A table with no free slot has none of its slots null. */
  lemma {:induction false} NoFreeSlot<N>(s: Slots<N>)
    ensures FreeSlots(s) == 0 <==> forall i :: 0 <= i < |s| ==> s[i].Some?
    ensures FreeSlots(s) == |s| <==> forall i :: 0 <= i < |s| ==> s[i].None?
  {
    if |s| > 0 {
      NoFreeSlot(s[..|s| - 1]);
      assert forall i :: 0 <= i < |s| - 1 ==> s[..|s| - 1][i] == s[i];
    }
  }

  /** Ids of queued images are below the id counter and pairwise distinct. */
  ghost predicate IdsFresh<N>(s: Slots<N>, next: int)
  {
    0 <= next &&
    (forall i :: 0 <= i < |s| && s[i].Some? ==> 0 <= s[i].value.idImage < next) &&
    (forall i, j :: 0 <= i < j < |s| && s[i].Some? && s[j].Some? ==> s[i].value.idImage != s[j].value.idImage)
  }

  /** The image table of the source, with the worker pool and the geometry queue. */
  class Downloads<N> {
    var images: Slots<N>
    var geometries: seq<GeometryEntry<N>>
    var processState: ProcessState
    var imageID: int
    var freeImages: int
    var freeWorkers: nat

    /** freeImages counts the null slots, and image ids are unique and below imageID. */
    ghost predicate Valid()
      reads this
    {
      freeImages == FreeSlots(images) && IdsFresh(images, imageID)
    }

    /** The state at page load, with a full worker pool. */
    constructor ()
      ensures images == [] && geometries == [] && processState == ProcessImages
      ensures imageID == 0 && freeImages == 0 && freeWorkers == MAX_WORKERS
      ensures Valid()
    {
      images := [];
      geometries := [];
      processState := ProcessImages;
      imageID := 0;
      freeImages := 0;
      freeWorkers := MAX_WORKERS;
    }

    /** The resource test of loadLOD: too many images with no free slot, or too many geometries. */
    predicate Saturated()
      reads this`images, this`geometries, this`freeImages
    {
      (|images| > MAX_QUEUED && freeImages == 0) || |geometries| > MAX_QUEUED
    }

    /** With the counter in step, "no free slot" means every slot holds an image. */
    lemma SaturatedMeaning()
      requires Valid()
      ensures Saturated() <==>
        (|images| > MAX_QUEUED && forall i :: 0 <= i < |images| ==> images[i].Some?) || |geometries| > MAX_QUEUED
    {
      NoFreeSlot(images);
    }

    /**
     * The image branch of the worker's onmessage handler: the image gets the
     * next id and goes into the first null slot (one fewer free slot), or is
     * appended when there is none.
     */
    method QueueImage(node: N, now: int) returns (slot: nat)
      requires Valid()
      modifies this`images, this`imageID, this`freeImages
      ensures Valid()
      ensures imageID == old(imageID) + 1
      ensures slot <= |old(images)|
      ensures forall k :: 0 <= k < slot && k < |old(images)| ==> old(images)[k].Some?
      ensures var e := Some(ImageEntry(node, old(imageID), ToLoad, false, now));
        if slot < |old(images)| then
          old(images)[slot].None? && images == old(images)[slot := e] && freeImages == old(freeImages) - 1
        else
          images == old(images) + [e] && freeImages == old(freeImages)
    {
      var id := imageID;
      imageID := imageID + 1;
      slot := 0;
      while slot < |images| && images[slot].Some?
        invariant slot <= |images|
        invariant forall k :: 0 <= k < slot ==> images[k].Some?
      {
        slot := slot + 1;
      }
      var e := ImageEntry(node, id, ToLoad, false, now);
      IdsFreshPut(images, slot, e, id);
      if slot < |images| {
        FreeSlotsUpdate(images, slot, Some(e));
        images := images[slot := Some(e)];
        freeImages := freeImages - 1;
      } else {
        FreeSlotsAppend(images, e);
        images := images + [Some(e)];
      }
    }

    /** The geometry branch of the worker's onmessage handler. */
    method QueueGeometry(node: N, name: string)
      modifies this`geometries
      ensures geometries == old(geometries) + [GeometryEntry(node, name)]
    {
      geometries := geometries + [GeometryEntry(node, name)];
    }

    /**
     * updateDownloads: hands the texture of every decoded image to its node
     * (the nodes are returned, in slot order), empties those slots, counts
     * them as free, and restarts the ids when the table held no image at all.
     */
    method UpdateDownloads() returns (delivered: seq<N>)
      requires Valid()
      modifies this`images, this`freeImages, this`imageID
      ensures Valid()
      ensures images == Swept(old(images))
      ensures delivered == Delivered(old(images))
      ensures freeImages == old(freeImages) + LoadedSlots(old(images))
      ensures imageID == if FreeSlots(old(images)) == |old(images)| then 0 else old(imageID)
    {
      ghost var s := images;
      var nonNull;
      delivered, nonNull := SweepImages();
      SweptFreeSlots(s);
      SweptKeepsIds(s, imageID);
      if nonNull == 0 {
        imageID := 0;
        NoFreeSlot(s);
        NoFreeSlot(Swept(s));
      }
    }

    /**
     * The loop of updateDownloads: each decoded image is delivered and its
     * slot emptied and counted free; `nonNull` counts the occupied slots.
     */
    method SweepImages() returns (delivered: seq<N>, nonNull: int)
      modifies this`images, this`freeImages
      ensures images == Swept(old(images))
      ensures delivered == Delivered(old(images))
      ensures freeImages == old(freeImages) + LoadedSlots(old(images))
      ensures nonNull == |old(images)| - FreeSlots(old(images))
    {
      ghost var s := images;
      var i := 0;
      nonNull := 0;
      delivered := [];
      while i < |images|
        invariant |images| == |s| && 0 <= i <= |s|
        invariant forall k :: 0 <= k < i ==> images[k] == if IsLoaded(s[k]) then None else s[k]
        invariant forall k :: i <= k < |s| ==> images[k] == s[k]
        invariant delivered == Delivered(s[..i])
        invariant freeImages == old(freeImages) + LoadedSlots(s[..i])
        invariant nonNull == i - FreeSlots(s[..i])
      {
        assert s[..i + 1][..i] == s[..i];
        var e := images[i];
        if e.Some? {
          if e.value.status == Loaded {
            if e.value.hasTexture {
              delivered := delivered + [e.value.node];
            }
            images := images[i := None];
            freeImages := freeImages + 1;
          }
          nonNull := nonNull + 1;
        }
        i := i + 1;
      }
      assert s[..i] == s;
      assert images == Swept(s);
    }

    /**
     * The image half of processDownloads (the halves alternate): the oldest
     * image waiting to load whose date is before `now` (the first one among
     * equally old) starts decoding.
     */
    method ProcessDownloads(now: int) returns (started: Option<nat>, geometry: Option<GeometryEntry<N>>)
      requires Valid()
      modifies this`processState, this`images, this`geometries
      ensures Valid()
      ensures processState != old(processState)
      ensures old(processState) == ProcessImages ==>
        geometries == old(geometries) && geometry.None? && WaitingOrder(old(images), now, started) &&
        images == (if started.Some? then old(images)[started.value := Some(old(images)[started.value].value.(status := Loading))] else old(images))
      ensures old(processState) == ProcessGeometry ==>
        images == old(images) && started.None? &&
        (if old(geometries) == [] then geometry.None? && geometries == []
         else geometry == Some(old(geometries)[0]) && geometries == old(geometries)[1..])
    {
      started := None;
      geometry := None;
      if processState == ProcessImages {
        processState := ProcessGeometry;
        if |images| > 0 {
          started := OldestWaiting(now);
          if started.Some? {
            var k := started.value;
            var e := images[k].value;
            FreeSlotsUpdate(images, k, Some(e.(status := Loading)));
            images := images[k := Some(e.(status := Loading))];
          }
        } else {
          assert WaitingOrder(images, now, None);
        }
      } else {
        processState := ProcessImages;
        if |geometries| > 0 {
          geometry := Some(geometries[0]);
          geometries := geometries[1..];
        }
      }
    }

    /** The selection loop of processDownloads' image half. */
    method OldestWaiting(now: int) returns (r: Option<nat>)
      ensures WaitingOrder(images, now, r)
    {
      var oldest := now;
      var current := -1;
      var i := 0;
      while i < |images|
        invariant 0 <= i <= |images|
        invariant -1 <= current < i
        invariant current >= 0 ==> Waiting(images, current) && oldest == images[current].value.date && oldest < now
        invariant current < 0 ==> oldest == now
        invariant forall k :: 0 <= k < i && Waiting(images, k) ==> images[k].value.date >= oldest
        invariant forall k :: 0 <= k < current && Waiting(images, k) ==> images[k].value.date > oldest
      {
        if images[i].Some? && images[i].value.status == ToLoad {
          if oldest > images[i].value.date {
            current := i;
            oldest := images[i].value.date;
          }
        }
        i := i + 1;
      }
      r := if current >= 0 then Some(current) else None;
    }

    /**
     * The browser finished decoding image `idImage` (img.onload when
     * `decoded`, img.onerror otherwise): its slot, if still queued, is marked
     * Loaded, with a texture only on success.  On failure the handler then
     * calls a method the slot entry does not have, which throws; the node
     * never hears of the failure.
     */
    method ImageDecoded(idImage: int, decoded: bool) returns (slot: Option<nat>)
      requires Valid()
      modifies this`images
      ensures Valid()
      ensures slot.None? ==> images == old(images)
      ensures slot.None? ==> forall k :: 0 <= k < |images| && images[k].Some? ==> images[k].value.idImage != idImage
      ensures slot.Some? ==> slot.value < |old(images)| && old(images)[slot.value].Some?
      ensures slot.Some? ==> old(images)[slot.value].value.idImage == idImage
      ensures slot.Some? ==>
        images == old(images)[slot.value := Some(old(images)[slot.value].value.(status := Loaded, hasTexture := decoded))]
    {
      var i := 0;
      while i < |images| && !(images[i].Some? && images[i].value.idImage == idImage)
        invariant 0 <= i <= |images|
        invariant forall k :: 0 <= k < i && images[k].Some? ==> images[k].value.idImage != idImage
      {
        i := i + 1;
      }
      if i == |images| {
        return None;
      }
      var e := images[i].value;
      FreeSlotsUpdate(images, i, Some(e.(status := Loaded, hasTexture := decoded)));
      images := images[i := Some(e.(status := Loaded, hasTexture := decoded))];
      slot := Some(i);
    }

    /** workerManager.getWorker: an idle worker, if there is one. */
    method TakeWorker() returns (got: bool)
      modifies this`freeWorkers
      ensures got <==> old(freeWorkers) > 0
      ensures freeWorkers == if got then old(freeWorkers) - 1 else old(freeWorkers)
    {
      got := freeWorkers > 0;
      if got {
        freeWorkers := freeWorkers - 1;
      }
    }

    /** workerManager.returnWorker, from the worker's onmessage or onerror. */
    method ReturnWorker()
      modifies this`freeWorkers
      ensures freeWorkers == old(freeWorkers) + 1
    {
      freeWorkers := freeWorkers + 1;
    }
  }

  /** Slot k holds an image waiting to be decoded. */
  ghost predicate Waiting<N>(s: Slots<N>, k: int)
  {
    0 <= k < |s| && s[k].Some? && s[k].value.status == ToLoad
  }

  /**
   * `r` is the choice of the image half of processDownloads: the first
   * waiting slot with the smallest date, provided that date is before `now`;
   * none when no waiting image is older than `now`.
   */
  ghost predicate WaitingOrder<N>(s: Slots<N>, now: int, r: Option<nat>)
  {
    match r
    case None => forall k :: Waiting(s, k) ==> s[k].value.date >= now
    case Some(c) =>
      Waiting(s, c) && s[c].value.date < now &&
      (forall k :: Waiting(s, k) ==> s[k].value.date >= s[c].value.date) &&
      (forall k :: 0 <= k < c && Waiting(s, k) ==> s[k].value.date > s[c].value.date)
  }

  /** Storing an image with the next id keeps ids fresh under the advanced counter. */
  lemma IdsFreshPut<N>(s: Slots<N>, k: nat, e: ImageEntry<N>, next: int)
    requires IdsFresh(s, next) && e.idImage == next && k <= |s|
    requires k < |s| ==> s[k].None?
    ensures IdsFresh(if k < |s| then s[k := Some(e)] else s + [Some(e)], next + 1)
  {
  }

  /** Sweeping only removes images, so ids stay fresh. */
  lemma SweptKeepsIds<N>(s: Slots<N>, next: int)
    requires IdsFresh(s, next)
    ensures IdsFresh(Swept(s), next)
  {
  }
}
