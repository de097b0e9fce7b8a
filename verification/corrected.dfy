/**
 * startNextFrame with the three repairs the as-written step needs:
 * - a successful rebuild marks every slot fully dirty, so no rectangle of an older, larger
 *   image survives it;
 * - the descriptor refresh and the upload only run while the pool matches the source image,
 *   so nothing is written into a pool that a failed rebuild left behind;
 * - the slot offset stays in VkDeviceSize instead of passing through an `int`.
 * Everything else is the step of vulkanwindow.cpp:597-669.
 */
module Corrected {
  import opened Common
  import opened Align
  import opened Raster
  import opened Regions
  import opened SlotMemory
  import opened Scene
  import opened Streaming

  /** The slot offset `frame * m_oneImageSize` kept as a VkDeviceSize. */
  function SlotOffsetFixed(oneImageSize: Option<nat>, frame: nat): (o: Option<int>)
    ensures oneImageSize.Some? <==> o.Some?
    ensures oneImageSize.Some? ==> o.value == MapOffsetFixed(0, frame, oneImageSize.value)
  {
    match oneImageSize
    case None => None
    case Some(s) => Some(Wrap(frame * s))
  }

  /** The slots below n all get region rg, the others keep theirs. */
  function Refill(dirty: seq<Region>, n: nat, rg: Region): (d: seq<Region>)
    requires n <= |dirty|
    ensures |d| == |dirty|
    ensures forall i :: 0 <= i < n ==> d[i] == rg
    ensures forall i :: n <= i < |dirty| ==> d[i] == dirty[i]
  {
    seq(|dirty|, i requires 0 <= i < |dirty| => if i < n then rg else dirty[i])
  }

  /** The pool holds images of the source's size. */
  predicate Matches(r: Renderer)
  {
    r.source.Some? && r.texSize == r.source.value.Size()
  }

  /**
   * Calls followed by the end of a frame: the earlier calls stay in front, the draw comes last,
   * and the appended calls hold an upload exactly when the slot has something pending, and then
   * only that slot's upload.
   */
  lemma TailAppended(events: seq<Event>, r: Renderer, frame: nat, offset: Option<int>, mapOk: bool)
    requires Shaped(r) && frame < MaxFrames
    ensures var es := events + TailEvents(r, frame, offset, mapOk);
      |events| < |es| && es[..|events|] == events && es[|es| - 1] == Drawn(frame)
      && ((exists k :: |events| <= k < |es| && es[k].Uploaded?) <==> !IsEmpty(r.texDirty[frame]))
      && forall k :: |events| <= k < |es| && es[k].Uploaded? ==> es[k] == UploadOf(r, frame, offset, mapOk)
  {
    var t := TailEvents(r, frame, offset, mapOk);
    var es := events + t;
    var n := if r.descDirty[frame] then 1 else 0;
    assert forall k :: |events| <= k < |es| ==> es[k] == t[k - |events|];
    assert forall k :: 0 <= k < |t| && t[k].Uploaded? ==> k == n && !IsEmpty(r.texDirty[frame]);
    if !IsEmpty(r.texDirty[frame]) {
      assert es[|events| + n] == UploadOf(r, frame, offset, mapOk);
    }
  }

  /** The end of a frame keeps the calls made so far in front and appends only the slot's upload and draw. */
  lemma FrameTailAppends(w: Window, r: Renderer, f: Frame, offset: Option<int>, events: seq<Event>)
    requires Shaped(r) && FrameOk(f)
    ensures var s := FrameTail(w, r, f, offset, events);
      |events| < |s.events| && s.events[..|events|] == events && s.events[|s.events| - 1] == Drawn(f.current)
      && ((exists k :: |events| <= k < |s.events| && s.events[k].Uploaded?) <==> !IsEmpty(r.texDirty[f.current]))
      && forall k :: |events| <= k < |s.events| && s.events[k].Uploaded? ==>
           s.events[k].slot == f.current && s.events[k].region == r.texDirty[f.current] && s.events[k].offset == offset
  {
    TailAppended(events, r, f.current, offset, f.mapOk);
  }

  /**
   * The end of the frame, with the refresh and the upload skipped while the pool does not match
   * the source. The calls made so far are kept and the frame still ends with the draw; a
   * mismatched pool is left alone, and a matching one has the current slot refreshed and drained,
   * with an upload exactly when something was pending, at the slot's VkDeviceSize offset.
   */
  function GuardedTail(w: Window, r: Renderer, f: Frame, events: seq<Event>): (s: Step)
    requires Shaped(r) && FrameOk(f)
    ensures Shaped(s.renderer) && s.window == w
    ensures |events| < |s.events| && s.events[..|events|] == events && s.events[|s.events| - 1] == Drawn(f.current)
    ensures !Matches(r) ==> s.renderer == r && |s.events| == |events| + 1
    ensures Matches(r) ==> !s.renderer.descDirty[f.current] && IsEmpty(s.renderer.texDirty[f.current])
    ensures Matches(r) ==> s.renderer == r.(descDirty := s.renderer.descDirty, texDirty := s.renderer.texDirty)
    ensures Matches(r) ==> forall j :: 0 <= j < MaxFrames && j != f.current ==>
      s.renderer.descDirty[j] == r.descDirty[j] && s.renderer.texDirty[j] == r.texDirty[j]
    ensures Matches(r) ==>
      ((exists k :: |events| <= k < |s.events| && s.events[k].Uploaded?) <==> !IsEmpty(r.texDirty[f.current]))
    ensures forall k :: |events| <= k < |s.events| && s.events[k].Uploaded? ==>
      Matches(r) && s.events[k].slot == f.current && s.events[k].region == r.texDirty[f.current]
      && s.events[k].offset == SlotOffsetFixed(r.pool.oneImageSize, f.current)
  {
    if Matches(r) then
      FrameTailAppends(w, r, f, SlotOffsetFixed(r.pool.oneImageSize, f.current), events);
      FrameTail(w, r, f, SlotOffsetFixed(r.pool.oneImageSize, f.current), events)
    else Step(w, r, events + [Drawn(f.current)])
  }

  /** The renderer after a successful rebuild: every slot below count is fully dirty. */
  function Refilled(r: Renderer, f: Frame): (r': Renderer)
    requires Shaped(r) && FrameOk(f)
    ensures Shaped(r')
  {
    var size := f.scene.image.Size();
    r.(texDirty := Refill(r.texDirty, f.count, Full(size.width, size.height)))
  }

  /** startNextFrame with the repairs. */
  function StartNextFrameFixed(w: Window, r: Renderer, f: Frame): (s: Step)
    requires Consistent(w) && Shaped(r) && FrameOk(f)
    ensures Shaped(s.renderer) && Consistent(s.window) && s.window.quickStarted
  {
    var started := Started(w, f.load);
    if RendersScene(w, f) then
      var w' := RenderQuickImage(started);
      if ResizeNeeded(w, r, f) then
        var z := Rebuild(r, f);
        if !z.ok then Step(w', z.renderer, RenderEvents(w, f) + z.events)
        else GuardedTail(w', Refilled(z.renderer, f), f, RenderEvents(w, f) + z.events)
      else GuardedTail(w', Fanned(r, f), f, RenderEvents(w, f))
    else GuardedTail(started, r, f, StartEvents(w))
  }

  /** What the scene render promises: its region is made of real rectangles inside the image. */
  predicate SceneOk(f: Frame)
  {
    Valid(f.scene.dirty) && Within(f.scene.dirty, f.scene.image.width, f.scene.image.height)
  }

  /**
   * The pool invariant: pending regions are well formed, and while m_texSize is not QSize() it
   * is a real size, memory and m_oneImageSize exist, every slot below n has an image and a view,
   * and every pending rectangle lies inside the pool's images.
   */
  predicate PoolReady(r: Renderer, n: nat)
  {
    Shaped(r) && n <= MaxFrames
    && (forall i :: 0 <= i < MaxFrames ==> Valid(r.texDirty[i]))
    && (r.texSize != NullSize ==>
          r.texSize.width > 0 && r.texSize.height > 0
          && r.pool.mem != Null && r.pool.oneImageSize.Some?
          && forall i :: 0 <= i < n ==>
               r.pool.images[i] != Null && r.texView[i] != Null
               && Within(r.texDirty[i], r.texSize.width, r.texSize.height))
  }

  /**
   * An upload writeLinearImage can perform: into a live image and memory at a known offset, from
   * a source of the pool's size, with real rectangles that lie inside it.
   */
  predicate SafeUpload(e: Event)
    requires e.Uploaded?
  {
    e.image != Null && e.memory != Null && e.offset.Some? && e.source.Some?
    && e.imageSize == e.source.value.Size()
    && Valid(e.region) && Within(e.region, e.imageSize.width, e.imageSize.height)
  }

  /** The empty region is well formed and lies inside every image. */
  lemma EmptyRegionOk()
    ensures Valid(Empty) && forall w, h :: Within(Empty, w, h)
  {
  }

  /** A region of real rectangles fits inside a null image only when it has no rectangles. */
  lemma NullImageHasNoRegion(rg: Region, w: int, h: int)
    requires Valid(rg) && Within(rg, w, h)
    ensures w <= 0 || h <= 0 ==> rg == Empty
  {
    if |rg| > 0 {
      assert rg[0].width > 0 && rg[0].x + rg[0].width <= w;
      assert rg[0].height > 0 && rg[0].y + rg[0].height <= h;
    }
  }

  /** On a matching pool, the end of a frame keeps the invariant and its uploads are the slot's safe upload. */
  lemma MatchedTailSafe(w: Window, r: Renderer, f: Frame, events: seq<Event>)
    requires FrameOk(f) && PoolReady(r, f.count) && Matches(r)
    requires forall e :: e in events ==> !e.Uploaded?
    ensures var offset := SlotOffsetFixed(r.pool.oneImageSize, f.current);
      PoolReady(FrameTail(w, r, f, offset, events).renderer, f.count)
      && forall e :: e in FrameTail(w, r, f, offset, events).events && e.Uploaded? ==>
           e == UploadOf(r, f.current, offset, f.mapOk) && SafeUpload(e)
  {
    assert r.texSize != NullSize;
    var offset := SlotOffsetFixed(r.pool.oneImageSize, f.current);
    var s := FrameTail(w, r, f, offset, events);
    TailAppended(events, r, f.current, offset, f.mapOk);
    forall e | e in s.events && e.Uploaded?
      ensures e == UploadOf(r, f.current, offset, f.mapOk)
    {
      var k :| 0 <= k < |s.events| && s.events[k] == e;
      assert e !in events;
      assert k >= |events| by {
        assert forall j :: 0 <= j < |events| ==> s.events[j] == events[j];
      }
    }
    EmptyRegionOk();
  }

  /** The guarded end of a frame keeps the invariant, and any upload it makes is safe. */
  lemma GuardedTailSafe(w: Window, r: Renderer, f: Frame, events: seq<Event>)
    requires FrameOk(f) && PoolReady(r, f.count)
    requires forall e :: e in events ==> !e.Uploaded?
    ensures PoolReady(GuardedTail(w, r, f, events).renderer, f.count)
    ensures forall e :: e in GuardedTail(w, r, f, events).events && e.Uploaded? ==>
      SafeUpload(e) && e.offset == SlotOffsetFixed(r.pool.oneImageSize, f.current)
  {
    if Matches(r) {
      MatchedTailSafe(w, r, f, events);
      assert GuardedTail(w, r, f, events) == FrameTail(w, r, f, SlotOffsetFixed(r.pool.oneImageSize, f.current), events);
    } else {
      assert GuardedTail(w, r, f, events).events == events + [Drawn(f.current)];
    }
  }

  /** The renderer the end of a corrected frame starts from keeps the invariant. */
  lemma FannedKeepsPoolReady(w: Window, r: Renderer, f: Frame)
    requires Consistent(w) && FrameOk(f) && SceneOk(f) && PoolReady(r, f.count)
    requires RendersScene(w, f) && !ResizeNeeded(w, r, f)
    ensures PoolReady(Fanned(r, f), f.count)
  {
    var image := f.scene.image;
    if r.texSize != NullSize && image.IsNull() {
      NullImageHasNoRegion(f.scene.dirty, image.width, image.height);
    }
  }

  /** A successful rebuild followed by the refill establishes the invariant. */
  lemma RefilledKeepsPoolReady(w: Window, r: Renderer, f: Frame)
    requires Consistent(w) && FrameOk(f) && PoolReady(r, f.count)
    requires ResizeNeeded(w, r, f) && !RebuildFails(f)
    ensures PoolReady(Refilled(Rebuild(r, f).renderer, f), f.count)
    ensures Refilled(Rebuild(r, f).renderer, f).texSize == f.scene.image.Size()
  {
    var z := Rebuild(r, f);
    var size := f.scene.image.Size();
    assert forall i :: f.count <= i < MaxFrames ==> z.renderer.texDirty[i] == r.texDirty[i];
  }

  /** What FixedKeepsPoolReady promises of one corrected step. */
  predicate StepSafe(s: Step, n: nat, current: nat)
  {
    PoolReady(s.renderer, n)
    && forall e :: e in s.events && e.Uploaded? ==>
         SafeUpload(e) && e.offset == SlotOffsetFixed(s.renderer.pool.oneImageSize, current)
  }

  /** The corrected step in a frame that rebuilds the pool. */
  lemma RebuildFrameSafe(w: Window, r: Renderer, f: Frame)
    requires Consistent(w) && FrameOk(f) && SceneOk(f) && PoolReady(r, f.count)
    requires ResizeNeeded(w, r, f)
    ensures StepSafe(StartNextFrameFixed(w, r, f), f.count, f.current)
  {
    var w' := RenderQuickImage(Started(w, f.load));
    var z := Rebuild(r, f);
    assert forall e :: e in RenderEvents(w, f) + z.events ==> !e.Uploaded?;
    if z.ok {
      RefilledKeepsPoolReady(w, r, f);
      GuardedTailSafe(w', Refilled(z.renderer, f), f, RenderEvents(w, f) + z.events);
      assert StartNextFrameFixed(w, r, f) == GuardedTail(w', Refilled(z.renderer, f), f, RenderEvents(w, f) + z.events);
    }
  }

  /** The corrected step in a frame that does not rebuild the pool. */
  lemma PlainFrameSafe(w: Window, r: Renderer, f: Frame)
    requires Consistent(w) && FrameOk(f) && SceneOk(f) && PoolReady(r, f.count)
    requires !ResizeNeeded(w, r, f)
    ensures StepSafe(StartNextFrameFixed(w, r, f), f.count, f.current)
  {
    if RendersScene(w, f) {
      var w' := RenderQuickImage(Started(w, f.load));
      FannedKeepsPoolReady(w, r, f);
      GuardedTailSafe(w', Fanned(r, f), f, RenderEvents(w, f));
    } else {
      GuardedTailSafe(Started(w, f.load), r, f, StartEvents(w));
    }
  }

  /**
   * The corrected step keeps the pool invariant, and every upload it makes is safe and lands at
   * the slot's bound offset `frame * m_oneImageSize` (vulkanwindow.cpp:597-669, 774, 824).
   */
  lemma FixedKeepsPoolReady(w: Window, r: Renderer, f: Frame)
    requires Consistent(w) && FrameOk(f) && SceneOk(f) && PoolReady(r, f.count)
    ensures PoolReady(StartNextFrameFixed(w, r, f).renderer, f.count)
    ensures forall e :: e in StartNextFrameFixed(w, r, f).events && e.Uploaded? ==>
      SafeUpload(e) && e.offset == SlotOffsetFixed(StartNextFrameFixed(w, r, f).renderer.pool.oneImageSize, f.current)
  {
    if ResizeNeeded(w, r, f) {
      RebuildFrameSafe(w, r, f);
    } else {
      PlainFrameSafe(w, r, f);
    }
  }

  /** The renderer starts out satisfying the invariant. */
  lemma InitPoolReady(n: nat)
    requires n <= MaxFrames
    ensures PoolReady(Init(), n)
  {
  }

  /** The end of a frame on a pool whose live slots all hold the same pending region. */
  lemma RefilledTail(w: Window, r: Renderer, f: Frame, offset: Option<int>, events: seq<Event>, full: Region)
    requires Shaped(r) && FrameOk(f) && !IsEmpty(full)
    requires forall i :: 0 <= i < f.count ==> r.texDirty[i] == full
    ensures forall i :: 0 <= i < f.count && i != f.current ==> FrameTail(w, r, f, offset, events).renderer.texDirty[i] == full
    ensures exists e :: e in FrameTail(w, r, f, offset, events).events && e.Uploaded? && e.region == full
  {
    var up := UploadOf(r, f.current, offset, f.mapOk);
    assert r.texDirty[f.current] == full;
    assert up in TailEvents(r, f.current, offset, f.mapOk);
    assert up in FrameTail(w, r, f, offset, events).events;
  }

  /**
   * After a successful rebuild of the corrected step, every slot below concurrentFrameCount
   * other than the current one has the whole new image pending, and the current slot uploads
   * the whole image in the same frame.
   */
  lemma FixedRebuildRefreshesEverySlot(w: Window, r: Renderer, f: Frame)
    requires Consistent(w) && FrameOk(f) && PoolReady(r, f.count)
    requires ResizeNeeded(w, r, f) && !RebuildFails(f)
    ensures forall i :: 0 <= i < f.count && i != f.current ==>
      forall px, py :: Covers(StartNextFrameFixed(w, r, f).renderer.texDirty[i], px, py) <==>
        0 <= px < f.scene.image.width && 0 <= py < f.scene.image.height
    ensures exists e :: e in StartNextFrameFixed(w, r, f).events && e.Uploaded? && e.region == Full(f.scene.image.width, f.scene.image.height)
  {
    var z := Rebuild(r, f);
    var r' := Refilled(z.renderer, f);
    RefilledKeepsPoolReady(w, r, f);
    assert Matches(r');
    var offset := SlotOffsetFixed(r'.pool.oneImageSize, f.current);
    assert StartNextFrameFixed(w, r, f) == FrameTail(RenderQuickImage(Started(w, f.load)), r', f, offset, RenderEvents(w, f) + z.events);
    var full := Full(f.scene.image.width, f.scene.image.height);
    assert !IsEmpty(r'.texDirty[f.current]);
    RefilledTail(RenderQuickImage(Started(w, f.load)), r', f, offset, RenderEvents(w, f) + z.events, full);
  }
}
