/**
 * VulkanRenderer's texture streaming: the per-slot fields of vulkanwindow.h:92-106 and the part
 * of startNextFrame (vulkanwindow.cpp:597-669) that keeps them. A frame step is a function of
 * the renderer, the window flags and everything the outside world decides for that frame, and
 * it returns the new state together with the list of calls it made.
 */
module Streaming {
  import opened Common
  import opened Align
  import opened Raster
  import opened Regions
  import opened SlotMemory
  import opened Scene

  /** QVulkanWindow::MAX_CONCURRENT_FRAME_COUNT: the capacity of every per-slot array. */
  const MaxFrames: nat := 3

  /**
   * The renderer's texture fields: m_texDirty, m_texImage / m_texMem / m_oneImageSize (inside
   * `pool`, with the supply of fresh handles), m_texView, m_texSize, m_source (None while the
   * pointer has never been assigned) and m_descDirty.
   */
  datatype Renderer = Renderer(
    texDirty: seq<Region>,
    pool: Pool,
    texView: seq<Handle>,
    texSize: QSize,
    source: Option<Image>,
    descDirty: seq<bool>)

  /** Every per-slot array has MAX_CONCURRENT_FRAME_COUNT entries. */
  predicate Shaped(r: Renderer)
  {
    |r.texDirty| == MaxFrames && |r.pool.images| == MaxFrames
    && |r.texView| == MaxFrames && |r.descDirty| == MaxFrames
  }

  /** What the world decides for one frame. */
  datatype Frame = Frame(
    count: nat,           // concurrentFrameCount()
    current: nat,         // currentFrame()
    load: LoadOutcome,    // how startQuick's component load goes, if it is called
    scene: Rendered,      // what renderQuickImage returns, if it is called
    req: MemReq,          // vkGetImageMemoryRequirements of the first new image
    fail: Failure,        // the first failing Vulkan call of a pool rebuild
    mapOk: bool)          // whether vkMapMemory in writeLinearImage succeeds

  /** QVulkanWindow guarantees 1 <= concurrentFrameCount <= MAX and currentFrame < concurrentFrameCount. */
  predicate FrameOk(f: Frame)
  {
    1 <= f.count <= MaxFrames && f.current < f.count && ReqInRange(f.req)
  }

  /** The calls a frame step makes, in order. */
  datatype Event =
    | StartQuickCalled
    | SceneRendered(dirty: Region)
    | DeviceWaitIdle
    | Destroyed(handle: Handle)
    | PoolCreated(ok: bool)
    | DescriptorWritten(slot: nat, view: Handle)
      /** writeLinearImage: the slot's image and the memory, the `offset` argument (None when
          m_oneImageSize was never assigned), the region, *m_source, the size of the pool's
          images (m_texSize) and whether the mapping succeeded. */
    | Uploaded(slot: nat, image: Handle, memory: Handle, offset: Option<int>, region: Region,
               source: Option<Image>, imageSize: QSize, written: bool)
    | Drawn(slot: nat)

  /** State, window flags and calls after a step or part of one. */
  datatype Step = Step(window: Window, renderer: Renderer, events: seq<Event>)

  /** A sub-step that may stop the frame early. */
  datatype Outcome = Outcome(ok: bool, renderer: Renderer, events: seq<Event>)

  /** Slots below n set to Null, the others kept. */
  function ClearBelow(hs: seq<Handle>, n: nat): (r: seq<Handle>)
    ensures |r| == |hs|
    ensures forall i :: 0 <= i < |hs| ==> r[i] == if i < n then Null else hs[i]
  {
    seq(|hs|, i requires 0 <= i < |hs| => if i < n then Null else hs[i])
  }

  /** The constructor and the header's initialisers (vulkanwindow.h:92-106, vulkanwindow.cpp:236-244). */
  function Init(): (r: Renderer)
    ensures Shaped(r)
    ensures r.pool.mem == Null && r.pool.oneImageSize == None && r.texSize == NullSize
    ensures forall i :: 0 <= i < MaxFrames ==>
      IsEmpty(r.texDirty[i]) && r.pool.images[i] == Null && r.texView[i] == Null && !r.descDirty[i]
  {
    Renderer(
      seq(MaxFrames, _ => Empty),
      Pool(seq(MaxFrames, _ => Null), Null, None, Null),
      seq(MaxFrames, _ => Null),
      NullSize,
      None,
      seq(MaxFrames, _ => false))
  }

  /** The fan-out loop (vulkanwindow.cpp:611-612): every slot below n gains the rendered region. */
  function FanOut(dirty: seq<Region>, n: nat, rg: Region): (d: seq<Region>)
    requires n <= |dirty|
    ensures |d| == |dirty|
    ensures forall i :: 0 <= i < n ==>
      forall px, py :: Covers(d[i], px, py) <==> Covers(dirty[i], px, py) || Covers(rg, px, py)
    ensures forall i :: 0 <= i < n ==> (IsEmpty(d[i]) <==> IsEmpty(dirty[i]) && IsEmpty(rg))
    ensures forall i :: 0 <= i < n ==> forall w, h :: Within(dirty[i], w, h) && Within(rg, w, h) ==> Within(d[i], w, h)
    ensures forall i :: 0 <= i < n ==> Valid(dirty[i]) && Valid(rg) ==> Valid(d[i])
    ensures forall i :: n <= i < |dirty| ==> d[i] == dirty[i]
  {
    seq(|dirty|, i requires 0 <= i < |dirty| => if i < n then Union(dirty[i], rg) else dirty[i])
  }

  /** The handles releaseTex destroys for slots i .. n-1: each slot's view, then its image. */
  function DestroySlots(views: seq<Handle>, images: seq<Handle>, i: nat, n: nat): (d: seq<Handle>)
    requires i <= n <= |views| && n <= |images|
    ensures forall h :: h in d <==> h != Null && exists j :: i <= j < n && (h == views[j] || h == images[j])
    decreases n - i
  {
    if i == n then []
    else
      (if views[i] != Null then [views[i]] else [])
      + (if images[i] != Null then [images[i]] else [])
      + DestroySlots(views, images, i + 1, n)
  }

  /** The pool after releaseTex and the handles it destroyed, in order. */
  datatype Released = Released(renderer: Renderer, destroyed: seq<Handle>)

  /**
   * releaseTex (vulkanwindow.cpp:573-595): destroys every live view and image of the slots
   * below n and then the memory, nulls them, and sets m_texSize to QSize(). Slots from n on,
   * the pending regions, the descriptor flags, m_oneImageSize and m_source stay as they were.
   */
  function ReleaseTex(r: Renderer, n: nat): (res: Released)
    requires Shaped(r) && n <= MaxFrames
    ensures Shaped(res.renderer)
    ensures forall i :: 0 <= i < n ==> res.renderer.texView[i] == Null && res.renderer.pool.images[i] == Null
    ensures forall i :: n <= i < MaxFrames ==>
      res.renderer.texView[i] == r.texView[i] && res.renderer.pool.images[i] == r.pool.images[i]
    ensures res.renderer.pool.mem == Null && res.renderer.texSize == NullSize
    ensures res.renderer.texDirty == r.texDirty && res.renderer.descDirty == r.descDirty
    ensures res.renderer.source == r.source && res.renderer.pool.oneImageSize == r.pool.oneImageSize
    ensures res.renderer.pool.next == r.pool.next
    ensures forall h :: h in res.destroyed <==>
      h != Null && (h == r.pool.mem || exists j :: 0 <= j < n && (h == r.texView[j] || h == r.pool.images[j]))
    ensures r.pool.mem != Null ==> |res.destroyed| > 0 && res.destroyed[|res.destroyed| - 1] == r.pool.mem
  {
    var slots := DestroySlots(r.texView, r.pool.images, 0, n);
    var destroyed := slots + (if r.pool.mem != Null then [r.pool.mem] else []);
    var pool := r.pool.(images := ClearBelow(r.pool.images, n), mem := Null);
    Released(r.(pool := pool, texView := ClearBelow(r.texView, n), texSize := NullSize), destroyed)
  }

  /** Some vkCreateImageView for the slots i .. n-1 fails. */
  predicate ViewFailsFrom(fail: Failure, i: nat, n: nat)
  {
    fail.ViewFails? && i <= fail.slot < n
  }

  /** Started at slot i, the view loop gives views to the slots below this one. */
  function ViewsMade(fail: Failure, i: nat, n: nat): nat
  {
    if ViewFailsFrom(fail, i, n) then fail.slot else n
  }

  /**
   * The view loop of a resize (vulkanwindow.cpp:630-636), from slot i on: each slot gets a
   * fresh view and is marked for a descriptor refresh, until a view fails.
   */
  function CreateViews(r: Renderer, i: nat, n: nat, fail: Failure): (res: Outcome)
    requires Shaped(r) && i <= n <= MaxFrames
    ensures Shaped(res.renderer) && res.events == []
    ensures res.ok <==> !ViewFailsFrom(fail, i, n)
    ensures forall j :: i <= j < n && j < ViewsMade(fail, i, n) ==> res.renderer.texView[j] != Null && res.renderer.descDirty[j]
    ensures forall j :: 0 <= j < MaxFrames && !(i <= j < ViewsMade(fail, i, n)) ==>
      res.renderer.texView[j] == r.texView[j] && res.renderer.descDirty[j] == r.descDirty[j]
    ensures res.renderer.texDirty == r.texDirty && res.renderer.texSize == r.texSize
    ensures res.renderer.source == r.source
    ensures res.renderer.pool == r.pool.(next := res.renderer.pool.next)
    decreases n - i
  {
    if i == n then Outcome(true, r, [])
    else if fail == ViewFails(i) then Outcome(false, r, [])
    else
      var view := r.pool.next + 1;
      var r' := r.(texView := r.texView[i := view], descDirty := r.descDirty[i := true],
                   pool := r.pool.(next := view));
      CreateViews(r', i + 1, n, fail)
  }

  /** One Destroyed event per handle, in order. */
  function DestroyEvents(hs: seq<Handle>): (es: seq<Event>)
    ensures |es| == |hs|
    ensures forall i :: 0 <= i < |hs| ==> es[i] == Destroyed(hs[i])
  {
    seq(|hs|, i requires 0 <= i < |hs| => Destroyed(hs[i]))
  }

  /** The slot images, memory and m_oneImageSize a rebuild of n slots leaves behind. */
  function WithPool(r: Renderer, p: Pool): Renderer
  {
    r.(pool := p)
  }

  /**
   * The resize branch (vulkanwindow.cpp:615-637): wait for the device, release the pool,
   * create count images in one allocation, then a view per slot, and only when all of that
   * worked record the new size. A failure returns from startNextFrame on the spot.
   */
  function Resize(r: Renderer, n: nat, size: QSize, req: MemReq, fail: Failure): (res: Outcome)
    requires Shaped(r) && 1 <= n <= MaxFrames && ReqInRange(req)
    ensures Shaped(res.renderer)
    ensures res.ok <==> !FailsFrom(fail, 0, n) && !ViewFailsFrom(fail, 0, n)
    ensures |res.events| >= 2 && res.events[0] == DeviceWaitIdle
    ensures res.events[|res.events| - 1] == PoolCreated(!FailsFrom(fail, 0, n))
    ensures forall k :: 0 < k < |res.events| - 1 ==> res.events[k].Destroyed?
    ensures res.renderer.texDirty == r.texDirty && res.renderer.source == r.source
    ensures res.ok ==> res.renderer.texSize == size
    ensures res.ok ==> res.renderer.pool.mem != Null && res.renderer.pool.oneImageSize == Some(Aligned(req.size, req.alignment))
    ensures res.ok ==> forall i :: 0 <= i < n ==>
      res.renderer.pool.images[i] != Null && res.renderer.texView[i] != Null && res.renderer.descDirty[i]
    ensures !res.ok ==> res.renderer.texSize == NullSize
    ensures forall i :: n <= i < MaxFrames ==>
      res.renderer.texView[i] == r.texView[i] && res.renderer.pool.images[i] == r.pool.images[i]
      && res.renderer.descDirty[i] == r.descDirty[i]
  {
    var released := ReleaseTex(r, n);
    var r1 := released.renderer;
    var c := CreateTextureImage(n, req, fail, r1.pool);
    var events := [DeviceWaitIdle] + DestroyEvents(released.destroyed) + [PoolCreated(c.ok)];
    var r2 := WithPool(r1, c.pool);
    if !c.ok then Outcome(false, r2, events)
    else
      var v := CreateViews(r2, 0, n, fail);
      if !v.ok then Outcome(false, v.renderer, events)
      else Outcome(true, v.renderer.(texSize := size), events)
  }

  /**
   * The descriptor refresh (vulkanwindow.cpp:644-661): a stale slot has its flag cleared and its
   * own descriptor set rewritten with its current view; nothing else changes.
   */
  function Refresh(r: Renderer, frame: nat): (res: Outcome)
    requires Shaped(r) && frame < MaxFrames
    ensures Shaped(res.renderer) && res.ok
    ensures !res.renderer.descDirty[frame]
    ensures res.renderer == r.(descDirty := res.renderer.descDirty)
    ensures forall j :: 0 <= j < MaxFrames && j != frame ==> res.renderer.descDirty[j] == r.descDirty[j]
    ensures |res.events| <= 1 && (|res.events| == 1 <==> r.descDirty[frame])
    ensures forall k :: 0 <= k < |res.events| ==> res.events[k] == DescriptorWritten(frame, r.texView[frame])
  {
    if r.descDirty[frame] then Outcome(true, r.(descDirty := r.descDirty[frame := false]), [DescriptorWritten(frame, r.texView[frame])])
    else Outcome(true, r, [])
  }

  /** The `offset` argument writeLinearImage receives for a slot: `frame * m_oneImageSize` squeezed into an int. */
  function SlotOffset(oneImageSize: Option<nat>, frame: nat): Option<int>
  {
    match oneImageSize
    case None => None
    case Some(s) => Some(ToInt32(Wrap(frame * s)))
  }

  /**
   * The upload (vulkanwindow.cpp:663-669): a non-empty pending region of the current slot is
   * written into that slot's image at the given offset and then dropped, whether or not the
   * write worked. Other slots keep their regions.
   */
  function Consume(r: Renderer, frame: nat, offset: Option<int>, mapOk: bool): (res: Outcome)
    requires Shaped(r) && frame < MaxFrames
    ensures Shaped(res.renderer) && res.ok
    ensures IsEmpty(res.renderer.texDirty[frame])
    ensures res.renderer == r.(texDirty := res.renderer.texDirty)
    ensures forall j :: 0 <= j < MaxFrames && j != frame ==> res.renderer.texDirty[j] == r.texDirty[j]
    ensures |res.events| <= 1 && (|res.events| == 1 <==> !IsEmpty(r.texDirty[frame]))
    ensures forall k :: 0 <= k < |res.events| ==>
      res.events[k] == Uploaded(frame, r.pool.images[frame], r.pool.mem, offset, r.texDirty[frame], r.source, r.texSize, mapOk)
  {
    if !IsEmpty(r.texDirty[frame]) then
      var e := Uploaded(frame, r.pool.images[frame], r.pool.mem, offset, r.texDirty[frame], r.source, r.texSize, mapOk);
      Outcome(true, r.(texDirty := r.texDirty[frame := Empty]), [e])
    else Outcome(true, r, [])
  }

  /** The upload call of the current slot with the given `offset` argument. */
  function UploadOf(r: Renderer, frame: nat, offset: Option<int>, mapOk: bool): Event
    requires Shaped(r) && frame < MaxFrames
  {
    Uploaded(frame, r.pool.images[frame], r.pool.mem, offset, r.texDirty[frame], r.source, r.texSize, mapOk)
  }

  /**
   * The calls the end of a frame makes, read off the state it starts from: the descriptor write
   * if the slot is stale, the upload if its region is pending, and the draw.
   */
  function TailEvents(r: Renderer, frame: nat, offset: Option<int>, mapOk: bool): seq<Event>
    requires Shaped(r) && frame < MaxFrames
  {
    (if r.descDirty[frame] then [DescriptorWritten(frame, r.texView[frame])] else [])
    + (if !IsEmpty(r.texDirty[frame]) then [UploadOf(r, frame, offset, mapOk)] else [])
    + [Drawn(frame)]
  }

  /** A call that needs the slot's image, view or memory. */
  predicate UsesPool(e: Event)
  {
    e.DescriptorWritten? || e.Uploaded? || e.Drawn?
  }

  /**
   * Descriptor refresh, upload and the draw of the current slot (vulkanwindow.cpp:641-724): the
   * current slot ends up fresh and with nothing pending, every other field stays as it was.
   */
  function FrameTail(w: Window, r: Renderer, f: Frame, offset: Option<int>, events: seq<Event>): (s: Step)
    requires Shaped(r) && FrameOk(f)
    ensures Shaped(s.renderer) && s.window == w
    ensures s.events == events + TailEvents(r, f.current, offset, f.mapOk)
    ensures !s.renderer.descDirty[f.current] && IsEmpty(s.renderer.texDirty[f.current])
    ensures forall j :: 0 <= j < MaxFrames && j != f.current ==>
      s.renderer.descDirty[j] == r.descDirty[j] && s.renderer.texDirty[j] == r.texDirty[j]
    ensures s.renderer == r.(descDirty := s.renderer.descDirty, texDirty := s.renderer.texDirty)
  {
    var a := Refresh(r, f.current);
    var b := Consume(a.renderer, f.current, offset, f.mapOk);
    Step(w, b.renderer, events + a.events + b.events + [Drawn(f.current)])
  }

  /** The window after the start-up check at the top of startNextFrame (vulkanwindow.cpp:602-603). */
  function Started(w: Window, load: LoadOutcome): (r: Window)
    requires Consistent(w)
    ensures r.quickStarted && Consistent(r)
    ensures w.quickStarted ==> r == w
  {
    if !w.quickStarted then StartQuick(w, load) else w
  }

  /** The calls made by the start-up check. */
  function StartEvents(w: Window): seq<Event>
  {
    if !w.quickStarted then [StartQuickCalled] else []
  }

  /** The scene is rendered this frame (vulkanwindow.cpp:607). */
  predicate RendersScene(w: Window, f: Frame)
    requires Consistent(w)
  {
    var started := Started(w, f.load);
    started.quickRunning && started.quickSceneChanged
  }

  /** The pool is rebuilt this frame (vulkanwindow.cpp:614-615). */
  predicate ResizeNeeded(w: Window, r: Renderer, f: Frame)
    requires Consistent(w)
  {
    RendersScene(w, f) && !f.scene.image.IsNull() && r.texSize != f.scene.image.Size()
  }

  /** The rebuild fails at some Vulkan call. */
  predicate RebuildFails(f: Frame)
  {
    FailsFrom(f.fail, 0, f.count) || ViewFailsFrom(f.fail, 0, f.count)
  }

  /** The renderer after the scene render and the fan-out (vulkanwindow.cpp:610-612). */
  function Fanned(r: Renderer, f: Frame): (r': Renderer)
    requires Shaped(r) && FrameOk(f)
    ensures Shaped(r')
  {
    r.(source := Some(f.scene.image), texDirty := FanOut(r.texDirty, f.count, f.scene.dirty))
  }

  /** The calls up to the scene render. */
  function RenderEvents(w: Window, f: Frame): seq<Event>
  {
    StartEvents(w) + [SceneRendered(f.scene.dirty)]
  }

  /** The rebuild of this frame, started from the fanned-out state. */
  function Rebuild(r: Renderer, f: Frame): (z: Outcome)
    requires Shaped(r) && FrameOk(f)
    ensures Shaped(z.renderer)
  {
    Resize(Fanned(r, f), f.count, f.scene.image.Size(), f.req, f.fail)
  }

  /** The `offset` argument startNextFrame passes for the current slot. */
  function OffsetOf(r: Renderer, f: Frame): Option<int>
  {
    SlotOffset(r.pool.oneImageSize, f.current)
  }

  /** startNextFrame (vulkanwindow.cpp:597-669) as written, up to and including the draw. */
  function StartNextFrame(w: Window, r: Renderer, f: Frame): (s: Step)
    requires Consistent(w) && Shaped(r) && FrameOk(f)
    ensures Shaped(s.renderer) && Consistent(s.window) && s.window.quickStarted
    ensures forall j :: f.count <= j < MaxFrames ==>
      s.renderer.texDirty[j] == r.texDirty[j] && s.renderer.descDirty[j] == r.descDirty[j]
      && s.renderer.texView[j] == r.texView[j] && s.renderer.pool.images[j] == r.pool.images[j]
  {
    var started := Started(w, f.load);
    if RendersScene(w, f) then
      var w' := RenderQuickImage(started);
      if ResizeNeeded(w, r, f) then
        var z := Rebuild(r, f);
        if !z.ok then Step(w', z.renderer, RenderEvents(w, f) + z.events)
        else FrameTail(w', z.renderer, f, OffsetOf(z.renderer, f), RenderEvents(w, f) + z.events)
      else FrameTail(w', Fanned(r, f), f, OffsetOf(r, f), RenderEvents(w, f))
    else FrameTail(started, r, f, OffsetOf(r, f), StartEvents(w))
  }
}
