/**
 * Two runs of startNextFrame (vulkanwindow.cpp:597-669), as written, that end in an upload the
 * renderer cannot perform safely.
 */
module Counterexamples {
  import opened Common
  import opened Raster
  import opened Regions
  import opened SlotMemory
  import opened Scene
  import opened Streaming
  import opened StreamingProperties

  /** A blank side x side image of the Quick scene. */
  function Blank(side: nat): (img: Image)
    ensures img.WellFormed() && img.Size() == QSize(side, side)
  {
    Image(side, side, BytesPerPixel * side, seq(BytesPerPixel * side * side, _ => 0 as byte))
  }

  /** Quick running with a changed scene. */
  const Changed := Window(true, true, true)

  /** A frame of a two-slot swap chain whose scene render returns a side x side image, fully dirty. */
  function SceneFrame(current: nat, side: nat, fail: Failure): (f: Frame)
    ensures current < 2 ==> FrameOk(f)
  {
    Frame(2, current, LoadsAsync, Rendered(Blank(side), Full(side, side)), MemReq(16, 4), fail, true)
  }

  /** The first frame of the shrink run: a 2x2 pool is built and slot 1 is left with the 2x2 rectangle pending. */
  lemma ShrinkFirstFrame()
    ensures var s1 := StartNextFrame(Changed, Init(), SceneFrame(0, 2, NoFailure));
      s1.window == Window(true, true, false) && s1.renderer.texSize == QSize(2, 2)
      && s1.renderer.texDirty[1] == [Rect(0, 0, 2, 2)]
  {
    var f1 := SceneFrame(0, 2, NoFailure);
    assert ResizeNeeded(Changed, Init(), f1);
    var z := Rebuild(Init(), f1);
    assert z.ok && z.renderer.texSize == QSize(2, 2);
    assert TailStart(Changed, Init(), f1) == z.renderer;
    assert z.renderer.texDirty[1] == Union(Empty, Full(2, 2)) == [Rect(0, 0, 2, 2)];
    FrameEndsWithTail(Changed, Init(), f1);
  }

  /**
   * At the second frame of the shrink run the 1x1 render rebuilds the pool, and slot 1 enters the
   * end of the frame still pending the old 2x2 pixels, which do not fit the new 1x1 image.
   */
  lemma ShrinkRebuildKeepsStale(r: Renderer)
    requires Shaped(r) && r.texSize == QSize(2, 2) && r.texDirty[1] == [Rect(0, 0, 2, 2)]
    ensures var r0 := TailStart(Changed, r, SceneFrame(1, 1, NoFailure));
      (forall px, py :: Covers(r0.texDirty[1], px, py) <==> 0 <= px < 2 && 0 <= py < 2)
      && !Within(r0.texDirty[1], 1, 1) && r0.source == Some(Blank(1))
      && r0.texSize == QSize(1, 1) && !Aborted(Changed, r, SceneFrame(1, 1, NoFailure))
  {
    var f := SceneFrame(1, 1, NoFailure);
    assert ResizeNeeded(Changed, r, f);
    var z := Rebuild(r, f);
    assert z.ok && z.renderer.texSize == QSize(1, 1);
    assert TailStart(Changed, r, f) == z.renderer;
    assert r.texDirty[1] == Full(2, 2);
    assert z.renderer.texDirty[1] == Fanned(r, f).texDirty[1];
    StaleSquare(z.renderer.texDirty[1]);
  }

  /** A region covering the 2x2 square together with the 1x1 one covers the 2x2 square, which sticks out of a 1x1 image. */
  lemma StaleSquare(d: Region)
    requires forall px, py :: Covers(d, px, py) <==> Covers(Full(2, 2), px, py) || Covers(Full(1, 1), px, py)
    ensures forall px, py :: Covers(d, px, py) <==> 0 <= px < 2 && 0 <= py < 2
    ensures !Within(d, 1, 1)
  {
    if Within(d, 1, 1) {
      CoversWithin(d, 1, 1, 1, 1);
    }
  }

  /**
   * The second frame of the shrink run, from any pool of 2x2 images whose slot 1 has the 2x2
   * rectangle pending: the 1x1 render rebuilds the pool and slot 1 uploads a region that covers
   * the 2x2 square and so does not fit the 1x1 image.
   */
  lemma ShrinkSecondFrame(r: Renderer)
    requires Shaped(r) && r.texSize == QSize(2, 2) && r.texDirty[1] == [Rect(0, 0, 2, 2)]
    ensures exists e :: (e in StartNextFrame(Changed, r, SceneFrame(1, 1, NoFailure)).events && e.Uploaded?
      && e.source == Some(Blank(1)) && e.imageSize == QSize(1, 1) && !Within(e.region, 1, 1)
      && forall px, py :: Covers(e.region, px, py) <==> 0 <= px < 2 && 0 <= py < 2)
  {
    var f := SceneFrame(1, 1, NoFailure);
    var r0 := TailStart(Changed, r, f);
    ShrinkRebuildKeepsStale(r);
    FrameEndsWithTail(Changed, r, f);
    TailCalls(r0, 1, OffsetOf(r0, f), true);
    var up := UploadOf(r0, 1, OffsetOf(r0, f), true);
    assert up in StartNextFrame(Changed, r, f).events;
  }

  /**
   * The scene shrinks from 2x2 to 1x1 while slot 1 still has the 2x2 rectangle pending. The
   * rebuild at the second frame keeps it, so slot 1 then uploads the 2x2 square out of a 1x1
   * image into a 1x1 texture.
   */
  lemma ShrinkUploadsStaleRegion()
    ensures var s1 := StartNextFrame(Changed, Init(), SceneFrame(0, 2, NoFailure));
      var s2 := StartNextFrame(SceneChanged(s1.window), s1.renderer, SceneFrame(1, 1, NoFailure));
      exists e :: e in s2.events && e.Uploaded? && e.source == Some(Blank(1)) && e.imageSize == QSize(1, 1)
        && !Within(e.region, 1, 1) && forall px, py :: Covers(e.region, px, py) <==> 0 <= px < 2 && 0 <= py < 2
  {
    var s1 := StartNextFrame(Changed, Init(), SceneFrame(0, 2, NoFailure));
    ShrinkFirstFrame();
    assert SceneChanged(s1.window) == Changed;
    ShrinkSecondFrame(s1.renderer);
  }

  /**
   * The first frame of the failed-resize run: vkCreateImage fails at once, which leaves the pool
   * null, m_oneImageSize unassigned and slot 1 pending the 2x2 rectangle, and turns the next
   * frame into one that renders nothing.
   */
  lemma FailedResizeFirstFrame()
    ensures var s1 := StartNextFrame(Changed, Init(), SceneFrame(0, 2, ImageFails(0)));
      s1.renderer.texDirty[1] == [Rect(0, 0, 2, 2)] && s1.renderer.pool.mem == Null
      && s1.renderer.pool.images[1] == Null && s1.renderer.pool.oneImageSize == None
      && !RendersScene(s1.window, SceneFrame(1, 2, NoFailure))
  {
    var f1 := SceneFrame(0, 2, ImageFails(0));
    assert ResizeNeeded(Changed, Init(), f1) && RebuildFails(f1);
    ResizeFailsEarly(Changed, Init(), f1);
    FirstImageFails(Fanned(Init(), f1), 2, QSize(2, 2), f1.req);
    assert StartNextFrame(Changed, Init(), f1).renderer == Rebuild(Init(), f1).renderer;
  }

  /** A rebuild whose first vkCreateImage fails leaves the memory and the used slots' images null and m_oneImageSize as it was. */
  lemma FirstImageFails(r: Renderer, n: nat, size: QSize, req: MemReq)
    requires Shaped(r) && 1 <= n <= MaxFrames && ReqInRange(req)
    ensures var z := Resize(r, n, size, req, ImageFails(0));
      !z.ok && z.renderer.pool.mem == Null && z.renderer.pool.oneImageSize == r.pool.oneImageSize
      && forall i :: 0 <= i < n ==> z.renderer.pool.images[i] == Null
  {
    var r1 := ReleaseTex(r, n).renderer;
    var c := CreateTextureImage(n, req, ImageFails(0), r1.pool);
    assert c.pool == r1.pool && !c.ok;
    assert Resize(r, n, size, req, ImageFails(0)).renderer == WithPool(r1, c.pool);
  }

  /** A frame that renders no scene still uploads the current slot's pending region, at the offset the pool gives. */
  lemma IdleFrameUploads(w: Window, r: Renderer, f: Frame)
    requires Consistent(w) && Shaped(r) && FrameOk(f)
    requires !RendersScene(w, f) && !IsEmpty(r.texDirty[f.current])
    ensures UploadOf(r, f.current, OffsetOf(r, f), f.mapOk) in StartNextFrame(w, r, f).events
  {
    assert StartNextFrame(w, r, f) == FrameTail(Started(w, f.load), r, f, OffsetOf(r, f), StartEvents(w));
    TailCalls(r, f.current, OffsetOf(r, f), f.mapOk);
  }

  /**
   * The rebuild fails at the first vkCreateImage; the next frame, with the scene unchanged,
   * still uploads slot 1's pending region, into a null image and null memory at an offset
   * computed from an m_oneImageSize that was never assigned.
   */
  lemma UploadAfterFailedResize()
    ensures var s1 := StartNextFrame(Changed, Init(), SceneFrame(0, 2, ImageFails(0)));
      var s2 := StartNextFrame(s1.window, s1.renderer, SceneFrame(1, 2, NoFailure));
      exists e :: e in s2.events && e.Uploaded? && e.image == Null && e.memory == Null && e.offset == None
  {
    var s1 := StartNextFrame(Changed, Init(), SceneFrame(0, 2, ImageFails(0)));
    var f2 := SceneFrame(1, 2, NoFailure);
    FailedResizeFirstFrame();
    assert !IsEmpty(s1.renderer.texDirty[1]);
    IdleFrameUploads(s1.window, s1.renderer, f2);
    assert OffsetOf(s1.renderer, f2) == None;
  }
}
