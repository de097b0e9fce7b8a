/**
 * What one call of startNextFrame (vulkanwindow.cpp:597-669), as written, does to the texture
 * slots: when the pool is rebuilt and what a rebuild leaves behind, that descriptor refreshes
 * and uploads stay on the current slot, and how pending regions pile up and drain.
 */
module StreamingProperties {
  import opened Common
  import opened Align
  import opened Raster
  import opened Regions
  import opened SlotMemory
  import opened Scene
  import opened Streaming

  /** The calls that belong to a pool rebuild. */
  predicate RebuildCall(e: Event)
  {
    e.DeviceWaitIdle? || e.Destroyed? || e.PoolCreated?
  }

  /** The calls made before the rebuild: the start-up check and the scene render. */
  lemma PrefixHasNoRebuild(w: Window, f: Frame)
    ensures forall k :: 0 <= k < |RenderEvents(w, f)| ==>
      !RebuildCall(RenderEvents(w, f)[k]) && !UsesPool(RenderEvents(w, f)[k])
  {
  }

  /** The end of a frame makes no rebuild call. */
  lemma TailHasNoRebuild(r: Renderer, frame: nat, offset: Option<int>, mapOk: bool)
    requires Shaped(r) && frame < MaxFrames
    ensures forall k :: 0 <= k < |TailEvents(r, frame, offset, mapOk)| ==> !RebuildCall(TailEvents(r, frame, offset, mapOk)[k])
  {
  }

  /** A frame that does not rebuild makes no rebuild call. */
  lemma NoRebuildCalls(w: Window, r: Renderer, f: Frame)
    requires Consistent(w) && Shaped(r) && FrameOk(f) && !ResizeNeeded(w, r, f)
    ensures forall k :: 0 <= k < |StartNextFrame(w, r, f).events| ==> !RebuildCall(StartNextFrame(w, r, f).events[k])
  {
    var s := StartNextFrame(w, r, f);
    PrefixHasNoRebuild(w, f);
    var r0 := if RendersScene(w, f) then Fanned(r, f) else r;
    var prefix := if RendersScene(w, f) then RenderEvents(w, f) else StartEvents(w);
    TailHasNoRebuild(r0, f.current, OffsetOf(r0, f), f.mapOk);
    assert s.events == prefix + TailEvents(r0, f.current, OffsetOf(r0, f), f.mapOk);
  }

  /** The call sequence `a + b + c` has `a` as its start and the first call of `b` right after it. */
  lemma StartsAfter(a: seq<Event>, b: seq<Event>, c: seq<Event>)
    requires |b| > 0
    ensures |a| < |a + b + c| && (a + b + c)[|a|] == b[0]
    ensures forall k :: 0 <= k < |a| ==> (a + b + c)[k] == a[k]
  {
  }

  /** A frame that rebuilds calls vkDeviceWaitIdle right after the render, and no rebuild call comes earlier. */
  lemma RebuildStartsWithWait(w: Window, r: Renderer, f: Frame)
    requires Consistent(w) && Shaped(r) && FrameOk(f) && ResizeNeeded(w, r, f)
    ensures |RenderEvents(w, f)| < |StartNextFrame(w, r, f).events|
    ensures StartNextFrame(w, r, f).events[|RenderEvents(w, f)|] == DeviceWaitIdle
    ensures forall k :: 0 <= k < |RenderEvents(w, f)| ==> !RebuildCall(StartNextFrame(w, r, f).events[k])
  {
    var s := StartNextFrame(w, r, f);
    var z := Rebuild(r, f);
    PrefixHasNoRebuild(w, f);
    if z.ok {
      FrameEndsWithTail(w, r, f);
      StartsAfter(RenderEvents(w, f), z.events, TailEvents(TailStart(w, r, f), f.current, OffsetOf(TailStart(w, r, f), f), f.mapOk));
    } else {
      StartsAfter(RenderEvents(w, f), z.events, []);
    }
  }

  /**
   * The pool is rebuilt, starting with vkDeviceWaitIdle, exactly when Quick runs with a changed
   * scene whose non-null image differs in size from m_texSize (vulkanwindow.cpp:607-619).
   */
  lemma ResizeIffNeeded(w: Window, r: Renderer, f: Frame)
    requires Consistent(w) && Shaped(r) && FrameOk(f)
    ensures DeviceWaitIdle in StartNextFrame(w, r, f).events <==> ResizeNeeded(w, r, f)
  {
    if ResizeNeeded(w, r, f) {
      RebuildStartsWithWait(w, r, f);
    } else {
      NoRebuildCalls(w, r, f);
    }
  }

  /** A rebuild's calls name exactly the handles releaseTex destroyed. */
  lemma DestroyedCalls(hs: seq<Handle>, ok: bool)
    ensures forall h :: Destroyed(h) in [DeviceWaitIdle] + DestroyEvents(hs) + [PoolCreated(ok)] <==> h in hs
  {
    var es := [DeviceWaitIdle] + DestroyEvents(hs) + [PoolCreated(ok)];
    forall h | Destroyed(h) in es
      ensures h in hs
    {
      var k :| 0 <= k < |es| && es[k] == Destroyed(h);
      assert hs[k - 1] == h;
    }
    forall h | h in hs
      ensures Destroyed(h) in es
    {
      var k :| 0 <= k < |hs| && hs[k] == h;
      assert es[k + 1] == Destroyed(h);
    }
  }

  /**
   * A rebuild destroys every live view and image of the slots below n and the memory of the
   * old pool, and nothing else (vulkanwindow.cpp:621, 573-595).
   */
  lemma ResizeReleasesOldPool(r: Renderer, n: nat, size: QSize, req: MemReq, fail: Failure)
    requires Shaped(r) && 1 <= n <= MaxFrames && ReqInRange(req)
    ensures forall h :: Destroyed(h) in Resize(r, n, size, req, fail).events <==>
      h != Null && (h == r.pool.mem || exists j :: 0 <= j < n && (h == r.texView[j] || h == r.pool.images[j]))
  {
    var released := ReleaseTex(r, n);
    var c := CreateTextureImage(n, req, fail, released.renderer.pool);
    assert Resize(r, n, size, req, fail).events == [DeviceWaitIdle] + DestroyEvents(released.destroyed) + [PoolCreated(c.ok)];
    DestroyedCalls(released.destroyed, c.ok);
  }

  /**
   * Nothing of the old pool is destroyed before vkDeviceWaitIdle, and the new pool is created
   * after it (vulkanwindow.cpp:619-623).
   */
  lemma WaitIdleBeforeRelease(w: Window, r: Renderer, f: Frame)
    requires Consistent(w) && Shaped(r) && FrameOk(f)
    ensures forall k :: 0 <= k < |StartNextFrame(w, r, f).events| && RebuildCall(StartNextFrame(w, r, f).events[k]) ==>
      exists i :: 0 <= i <= k && StartNextFrame(w, r, f).events[i] == DeviceWaitIdle
  {
    var s := StartNextFrame(w, r, f);
    if ResizeNeeded(w, r, f) {
      RebuildStartsWithWait(w, r, f);
      var p := |RenderEvents(w, f)|;
      forall k | 0 <= k < |s.events| && RebuildCall(s.events[k])
        ensures exists i :: 0 <= i <= k && s.events[i] == DeviceWaitIdle
      {
        assert p <= k;
      }
    } else {
      NoRebuildCalls(w, r, f);
    }
  }

  /**
   * A rebuild that succeeds leaves a complete pool of the source's size: an image and a view in
   * every slot below concurrentFrameCount, memory, m_oneImageSize, and every slot other than the
   * current one marked for a descriptor refresh; the current slot's descriptor is rewritten with
   * its new view right after the rebuild calls, and the frame ends with the draw
   * (vulkanwindow.cpp:615-637, 644-661).
   */
  lemma ResizeSucceeds(w: Window, r: Renderer, f: Frame)
    requires Consistent(w) && Shaped(r) && FrameOk(f)
    requires ResizeNeeded(w, r, f) && !RebuildFails(f)
    ensures StartNextFrame(w, r, f).renderer.texSize == f.scene.image.Size()
    ensures StartNextFrame(w, r, f).renderer.pool.mem != Null
    ensures StartNextFrame(w, r, f).renderer.pool.oneImageSize == Some(Aligned(f.req.size, f.req.alignment))
    ensures forall i :: 0 <= i < f.count ==>
      StartNextFrame(w, r, f).renderer.pool.images[i] != Null && StartNextFrame(w, r, f).renderer.texView[i] != Null
    ensures forall i :: 0 <= i < f.count && i != f.current ==> StartNextFrame(w, r, f).renderer.descDirty[i]
    ensures var es := StartNextFrame(w, r, f).events; var i := |RenderEvents(w, f) + Rebuild(r, f).events|;
      i < |es| - 1 && es[i] == DescriptorWritten(f.current, StartNextFrame(w, r, f).renderer.texView[f.current])
      && es[|es| - 1] == Drawn(f.current)
  {
    var s := StartNextFrame(w, r, f);
    var z := Rebuild(r, f);
    var tail := TailEvents(z.renderer, f.current, OffsetOf(z.renderer, f), f.mapOk);
    assert s.events == RenderEvents(w, f) + z.events + tail;
    assert tail[0] == DescriptorWritten(f.current, z.renderer.texView[f.current]);
    assert s.events[|RenderEvents(w, f) + z.events|] == tail[0];
    assert s.events[|s.events| - 1] == Drawn(f.current);
  }

  /**
   * A rebuild that fails returns at once: no descriptor write, upload or draw follows, m_texSize
   * is QSize() so the next changed frame tries again, and the pending regions, with this frame's
   * region added, are kept (vulkanwindow.cpp:594, 621-634).
   */
  lemma ResizeFailsEarly(w: Window, r: Renderer, f: Frame)
    requires Consistent(w) && Shaped(r) && FrameOk(f)
    requires ResizeNeeded(w, r, f) && RebuildFails(f)
    ensures forall k :: 0 <= k < |StartNextFrame(w, r, f).events| ==> !UsesPool(StartNextFrame(w, r, f).events[k])
    ensures StartNextFrame(w, r, f).renderer.texSize == NullSize
    ensures StartNextFrame(w, r, f).renderer.texDirty == FanOut(r.texDirty, f.count, f.scene.dirty)
    ensures StartNextFrame(w, r, f).window.quickRunning && !StartNextFrame(w, r, f).window.quickSceneChanged
  {
    var s := StartNextFrame(w, r, f);
    var z := Rebuild(r, f);
    PrefixHasNoRebuild(w, f);
    assert s.events == RenderEvents(w, f) + z.events;
  }

  /** After a failed rebuild, the next frame that renders a non-null scene rebuilds again. */
  lemma RetryAfterFailedResize(w: Window, r: Renderer, f: Frame, f': Frame)
    requires Consistent(w) && Shaped(r) && FrameOk(f) && FrameOk(f')
    requires ResizeNeeded(w, r, f) && RebuildFails(f)
    requires !f'.scene.image.IsNull()
    ensures ResizeNeeded(SceneChanged(StartNextFrame(w, r, f).window), StartNextFrame(w, r, f).renderer, f')
  {
    ResizeFailsEarly(w, r, f);
  }

  /** The frame returns early: its rebuild failed. */
  predicate Aborted(w: Window, r: Renderer, f: Frame)
    requires Consistent(w)
  {
    ResizeNeeded(w, r, f) && RebuildFails(f)
  }

  /** The state the end of the frame starts from, when the frame gets there. */
  function TailStart(w: Window, r: Renderer, f: Frame): (r0: Renderer)
    requires Consistent(w) && Shaped(r) && FrameOk(f)
    ensures Shaped(r0)
  {
    if ResizeNeeded(w, r, f) then Rebuild(r, f).renderer
    else if RendersScene(w, f) then Fanned(r, f)
    else r
  }

  /** The calls a frame makes before its end. */
  function Prefix(w: Window, r: Renderer, f: Frame): seq<Event>
    requires Consistent(w) && Shaped(r) && FrameOk(f)
  {
    if ResizeNeeded(w, r, f) then RenderEvents(w, f) + Rebuild(r, f).events
    else if RendersScene(w, f) then RenderEvents(w, f)
    else StartEvents(w)
  }

  /** None of the calls before the end of a frame needs the slot's image, view or memory. */
  lemma PrefixUsesNoPool(w: Window, r: Renderer, f: Frame)
    requires Consistent(w) && Shaped(r) && FrameOk(f)
    ensures forall k :: 0 <= k < |Prefix(w, r, f)| ==> !UsesPool(Prefix(w, r, f)[k])
  {
    PrefixHasNoRebuild(w, f);
    if ResizeNeeded(w, r, f) {
      var z := Rebuild(r, f);
      assert forall k :: 0 <= k < |z.events| ==> !UsesPool(z.events[k]);
    }
  }

  /** A frame that is not aborted makes its prefix calls and then the calls TailEvents reads off TailStart. */
  lemma FrameEndsWithTail(w: Window, r: Renderer, f: Frame)
    requires Consistent(w) && Shaped(r) && FrameOk(f) && !Aborted(w, r, f)
    ensures StartNextFrame(w, r, f).events ==
      Prefix(w, r, f) + TailEvents(TailStart(w, r, f), f.current, OffsetOf(TailStart(w, r, f), f), f.mapOk)
    ensures var r0 := TailStart(w, r, f);
      var s := StartNextFrame(w, r, f).renderer;
      s == r0.(descDirty := s.descDirty, texDirty := s.texDirty)
      && !s.descDirty[f.current] && IsEmpty(s.texDirty[f.current])
      && (forall j :: 0 <= j < MaxFrames && j != f.current ==> s.descDirty[j] == r0.descDirty[j] && s.texDirty[j] == r0.texDirty[j])
  {
  }

  /** The calls of the end of a frame: at most one descriptor write and one upload, both for `frame`. */
  lemma TailCalls(r0: Renderer, frame: nat, offset: Option<int>, mapOk: bool)
    requires Shaped(r0) && frame < MaxFrames
    ensures forall k :: 0 <= k < |TailEvents(r0, frame, offset, mapOk)| && TailEvents(r0, frame, offset, mapOk)[k].DescriptorWritten? ==>
      TailEvents(r0, frame, offset, mapOk)[k] == DescriptorWritten(frame, r0.texView[frame])
    ensures forall k :: 0 <= k < |TailEvents(r0, frame, offset, mapOk)| && TailEvents(r0, frame, offset, mapOk)[k].Uploaded? ==>
      TailEvents(r0, frame, offset, mapOk)[k] == UploadOf(r0, frame, offset, mapOk)
    ensures !IsEmpty(r0.texDirty[frame]) ==> UploadOf(r0, frame, offset, mapOk) in TailEvents(r0, frame, offset, mapOk)
  {
  }

  /**
   * Descriptor writes and uploads only ever touch the current slot: the one descriptor write is
   * for m_descSet[frame] with m_texView[frame], the one upload writes m_texImage[frame] at
   * `frame * m_oneImageSize` (vulkanwindow.cpp:644-669).
   */
  lemma OnlyCurrentSlotTouched(w: Window, r: Renderer, f: Frame)
    requires Consistent(w) && Shaped(r) && FrameOk(f)
    ensures forall k :: 0 <= k < |StartNextFrame(w, r, f).events| && StartNextFrame(w, r, f).events[k].DescriptorWritten? ==>
      StartNextFrame(w, r, f).events[k] == DescriptorWritten(f.current, StartNextFrame(w, r, f).renderer.texView[f.current])
    ensures forall k :: 0 <= k < |StartNextFrame(w, r, f).events| && StartNextFrame(w, r, f).events[k].Uploaded? ==>
      var e := StartNextFrame(w, r, f).events[k];
      var s := StartNextFrame(w, r, f).renderer;
      e.slot == f.current && e.image == s.pool.images[f.current] && e.memory == s.pool.mem
      && e.offset == SlotOffset(s.pool.oneImageSize, f.current)
  {
    if !Aborted(w, r, f) {
      var r0 := TailStart(w, r, f);
      FrameEndsWithTail(w, r, f);
      PrefixUsesNoPool(w, r, f);
      TailCalls(r0, f.current, OffsetOf(r0, f), f.mapOk);
    } else {
      ResizeFailsEarly(w, r, f);
    }
  }

  /**
   * The descriptor flags of the other slots change only in a frame that rebuilds the pool; the
   * current slot's flag is clear at the end of every frame that is not aborted (vulkanwindow.cpp:644-646).
   */
  lemma RefreshKeepsOtherSlots(w: Window, r: Renderer, f: Frame)
    requires Consistent(w) && Shaped(r) && FrameOk(f)
    ensures !ResizeNeeded(w, r, f) ==> forall j :: 0 <= j < MaxFrames && j != f.current ==>
      StartNextFrame(w, r, f).renderer.descDirty[j] == r.descDirty[j]
    ensures !Aborted(w, r, f) ==> !StartNextFrame(w, r, f).renderer.descDirty[f.current]
  {
    if !Aborted(w, r, f) {
      FrameEndsWithTail(w, r, f);
    }
  }

  /**
   * After a scene render, every slot below concurrentFrameCount other than the current one has
   * as pending region its old one together with the rendered region (vulkanwindow.cpp:610-612);
   * without a render the other slots' regions do not change.
   */
  lemma PendingAccumulates(w: Window, r: Renderer, f: Frame)
    requires Consistent(w) && Shaped(r) && FrameOk(f)
    ensures RendersScene(w, f) ==> forall j :: 0 <= j < f.count && j != f.current ==>
      forall px, py :: Covers(StartNextFrame(w, r, f).renderer.texDirty[j], px, py) <==>
        Covers(r.texDirty[j], px, py) || Covers(f.scene.dirty, px, py)
    ensures !RendersScene(w, f) ==> forall j :: 0 <= j < MaxFrames && j != f.current ==>
      StartNextFrame(w, r, f).renderer.texDirty[j] == r.texDirty[j]
  {
    if !Aborted(w, r, f) {
      FrameEndsWithTail(w, r, f);
    } else {
      ResizeFailsEarly(w, r, f);
    }
  }

  /** The region the current slot has pending when the end of the frame starts. */
  lemma TailStartPending(w: Window, r: Renderer, f: Frame)
    requires Consistent(w) && Shaped(r) && FrameOk(f)
    ensures var rendered := if RendersScene(w, f) then f.scene.dirty else Empty;
      var pending := TailStart(w, r, f).texDirty[f.current];
      (IsEmpty(pending) <==> IsEmpty(r.texDirty[f.current]) && IsEmpty(rendered))
      && forall px, py :: Covers(pending, px, py) <==> Covers(r.texDirty[f.current], px, py) || Covers(rendered, px, py)
  {
    if !RendersScene(w, f) {
      assert forall px, py :: !Covers(Empty, px, py);
    }
  }

  /** Uploads among the prefix calls followed by the end of a frame are the uploads of the end. */
  lemma UploadsOfTail(prefix: seq<Event>, tail: seq<Event>)
    requires forall k :: 0 <= k < |prefix| ==> !UsesPool(prefix[k])
    ensures forall e :: e in prefix + tail && e.Uploaded? ==> e in tail
  {
  }

  /**
   * Calls that use no pool followed by the end of a frame for `frame` hold an upload exactly when
   * the slot has something pending, and then only the one upload of that slot.
   */
  lemma OnlyUploadOfTail(prefix: seq<Event>, r0: Renderer, frame: nat, offset: Option<int>, mapOk: bool)
    requires Shaped(r0) && frame < MaxFrames
    requires forall k :: 0 <= k < |prefix| ==> !UsesPool(prefix[k])
    ensures var events := prefix + TailEvents(r0, frame, offset, mapOk);
      ((exists e :: e in events && e.Uploaded?) <==> !IsEmpty(r0.texDirty[frame]))
      && forall e :: e in events && e.Uploaded? ==> e == UploadOf(r0, frame, offset, mapOk)
  {
    var tail := TailEvents(r0, frame, offset, mapOk);
    UploadsOfTail(prefix, tail);
    TailCalls(r0, frame, offset, mapOk);
    if !IsEmpty(r0.texDirty[frame]) {
      assert UploadOf(r0, frame, offset, mapOk) in prefix + tail;
    }
  }

  /**
   * A frame that is not aborted uploads the current slot's pending region, old and new pixels
   * alike, exactly when it is not empty, and leaves the slot with nothing pending
   * (vulkanwindow.cpp:663-669).
   */
  lemma PendingUploaded(w: Window, r: Renderer, f: Frame)
    requires Consistent(w) && Shaped(r) && FrameOk(f) && !Aborted(w, r, f)
    ensures IsEmpty(StartNextFrame(w, r, f).renderer.texDirty[f.current])
    ensures var rendered := if RendersScene(w, f) then f.scene.dirty else Empty;
      var s := StartNextFrame(w, r, f);
      ((exists e :: e in s.events && e.Uploaded?) <==> !(IsEmpty(r.texDirty[f.current]) && IsEmpty(rendered)))
      && forall e :: e in s.events && e.Uploaded? ==>
        forall px, py :: Covers(e.region, px, py) <==> Covers(r.texDirty[f.current], px, py) || Covers(rendered, px, py)
  {
    var r0 := TailStart(w, r, f);
    FrameEndsWithTail(w, r, f);
    PrefixUsesNoPool(w, r, f);
    OnlyUploadOfTail(Prefix(w, r, f), r0, f.current, OffsetOf(r0, f), f.mapOk);
    TailStartPending(w, r, f);
  }

  /** Consuming a slot twice in a row uploads once: the second pass finds nothing pending. */
  lemma ConsumeTwice(r: Renderer, frame: nat, offset: Option<int>, offset': Option<int>, mapOk: bool, mapOk': bool)
    requires Shaped(r) && frame < MaxFrames
    ensures Consume(Consume(r, frame, offset, mapOk).renderer, frame, offset', mapOk').events == []
    ensures Consume(Consume(r, frame, offset, mapOk).renderer, frame, offset', mapOk').renderer == Consume(r, frame, offset, mapOk).renderer
  {
  }

  /**
   * A frame that renders nothing, on a started window, for a slot that is neither stale nor
   * pending, only draws and changes nothing.
   */
  lemma QuietFrame(w: Window, r: Renderer, f: Frame)
    requires Consistent(w) && Shaped(r) && FrameOk(f)
    requires w.quickStarted && !(w.quickRunning && w.quickSceneChanged)
    requires !r.descDirty[f.current] && IsEmpty(r.texDirty[f.current])
    ensures StartNextFrame(w, r, f) == Step(w, r, [Drawn(f.current)])
  {
    var s := StartNextFrame(w, r, f);
    assert s.renderer.texDirty == r.texDirty;
    assert s.renderer.descDirty == r.descDirty;
  }

  /**
   * Run again on the same slot right after a frame that was not aborted, a frame without a
   * scene render uploads nothing (vulkanwindow.cpp:663-669).
   */
  lemma SecondPassNoUpload(w: Window, r: Renderer, f: Frame, f': Frame)
    requires Consistent(w) && Shaped(r) && FrameOk(f) && FrameOk(f') && !Aborted(w, r, f)
    requires f'.current == f.current
    requires !RendersScene(StartNextFrame(w, r, f).window, f')
    ensures forall e :: e in StartNextFrame(StartNextFrame(w, r, f).window, StartNextFrame(w, r, f).renderer, f').events ==> !e.Uploaded?
  {
    var s := StartNextFrame(w, r, f);
    FrameEndsWithTail(w, r, f);
    var s' := StartNextFrame(s.window, s.renderer, f');
    assert !ResizeNeeded(s.window, s.renderer, f');
    FrameEndsWithTail(s.window, s.renderer, f');
    assert TailStart(s.window, s.renderer, f') == s.renderer;
    PrefixUsesNoPool(s.window, s.renderer, f');
    UploadsOfTail(Prefix(s.window, s.renderer, f'), TailEvents(s.renderer, f.current, OffsetOf(s.renderer, f'), f'.mapOk));
  }

  /**
   * The first frame, with the QML component still loading, starts Quick and draws; no texture
   * exists yet and nothing is uploaded (vulkanwindow.h:92-106, 155-157, vulkanwindow.cpp:602-603).
   */
  lemma FirstFrameWhileLoading(f: Frame)
    requires FrameOk(f) && f.load == LoadsAsync
    ensures StartNextFrame(Initial, Init(), f) == Step(Window(true, false, false), Init(), [StartQuickCalled, Drawn(f.current)])
  {
    var s := StartNextFrame(Initial, Init(), f);
    assert s.renderer.texDirty == Init().texDirty;
    assert s.renderer.descDirty == Init().descDirty;
  }

  /** No slot has anything pending before m_source points at a rendered image. */
  predicate SourceBeforePending(r: Renderer)
    requires Shaped(r)
  {
    forall i :: 0 <= i < MaxFrames && !IsEmpty(r.texDirty[i]) ==> r.source.Some?
  }

  /**
   * m_source is never read before it is assigned: it starts unassigned with nothing pending,
   * every frame keeps SourceBeforePending, and an upload always has a source image
   * (vulkanwindow.h:98, vulkanwindow.cpp:610, 665).
   */
  lemma SourceAssignedBeforeUpload(w: Window, r: Renderer, f: Frame)
    requires Consistent(w) && Shaped(r) && FrameOk(f) && SourceBeforePending(r)
    ensures SourceBeforePending(Init())
    ensures SourceBeforePending(StartNextFrame(w, r, f).renderer)
    ensures forall e :: e in StartNextFrame(w, r, f).events && e.Uploaded? ==> e.source.Some?
  {
    var s := StartNextFrame(w, r, f);
    if Aborted(w, r, f) {
      ResizeFailsEarly(w, r, f);
      assert forall e :: e in s.events ==> !UsesPool(e);
    } else {
      var r0 := TailStart(w, r, f);
      FrameEndsWithTail(w, r, f);
      PrefixUsesNoPool(w, r, f);
      OnlyUploadOfTail(Prefix(w, r, f), r0, f.current, OffsetOf(r0, f), f.mapOk);
      assert SourceBeforePending(r0);
    }
  }
}
