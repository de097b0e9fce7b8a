# Texture streaming of the Vulkan / software Qt Quick example, in Dafny

This project models the texture-streaming bookkeeping of `VulkanRenderer` in `vulkanwindow.cpp`.
Each frame, a Qt Quick scene is rendered in software into a `QImage`. The renderer then streams the
changed pixels into one of up to `MAX_CONCURRENT_FRAME_COUNT` (= 3) linear-tiled Vulkan images,
one per in-flight frame ("slot"). All the slot images share a single device-memory allocation.

Modules:

- `Align` (align.dfy) models `aligned(v, byteAlign)` in 64-bit unsigned arithmetic, with
  wrap-around. The bitwise AND is defined bit by bit.
- `Regions` (regions.dfy) models `QRegion` as a list of rectangles. `Covers` gives a region's
  meaning as a set of pixels, `+=` is `Union`, and `QRegion::isEmpty` is `IsEmpty`. Only the
  covered pixels are meant; the way `QRegion` splits them into rectangles is not modelled.
- `Raster` (raster.dfy) models `QImage`, `QSize` and the null size `QSize()`.
- `PixelCopy` (pixelcopy.dfy) models the pitched copy loop of `writeLinearImage` on a flat byte
  sequence. `Expected` says what each byte of the mapping holds after the copy.
- `SlotMemory` (slotmemory.dfy) models `createTextureImage` and the slot layout:
  - one allocation of `m_oneImageSize * count` bytes;
  - image `i` bound at `m_oneImageSize * i`;
  - the way each of its Vulkan calls can fail;
  - the `int offset` through which the slot offset reaches `vkMapMemory`.
- `Scene` (scene.dfy) models the window's flags `m_quickStarted`, `m_quickRunning` and
  `m_quickSceneChanged`, and the functions that set and clear them.
- `Streaming` (renderer.dfy) models the renderer's per-slot fields, `releaseTex`, and
  `startNextFrame` up to the draw. One call of `StartNextFrame` is a pure function. It takes the
  window flags, the renderer and a `Frame` holding everything the outside world decides for that
  frame:
  - `concurrentFrameCount` and `currentFrame`;
  - the outcome of the QML component load;
  - the rendered image and its dirty region;
  - the memory requirements;
  - the first failing Vulkan call, if any;
  - whether `vkMapMemory` succeeds.

  It returns the new flags, the new renderer and the list of calls made, in order (`Event`).
- `StreamingProperties` (properties.dfy) holds what one frame does to the slots:
  - when the pool is rebuilt, and what a rebuild leaves behind;
  - that only the current slot is refreshed or uploaded;
  - how pending regions pile up and drain.
- `Counterexamples` (findings.dfy) holds the concrete runs behind the findings below.
- `Corrected` (corrected.dfy) holds `startNextFrame` with those findings repaired, and the
  invariant `PoolReady` that the repaired step keeps. Under that invariant every upload is
  `SafeUpload`.

Two behaviours of the code shape the model:

- **Rebuilding does not mark slots dirty.** A rebuild of the pool leaves every slot's pending
  region as it was; the slots only gain the region the scene render returns
  (vulkanwindow.cpp:610-637). `Streaming.StartNextFrame` does the same.
- **A failed rebuild leaves objects behind.** The images, memory and views created before the
  failing call stay in place, and only `m_texSize` is reset, to `QSize()` by `releaseTex`
  (vulkanwindow.cpp:594, 621-634). `Streaming.Resize` and `SlotMemory.CreateTextureImage` keep
  those objects too.

## Model

| member | source | states |
|---|---|---|
| `Align.Aligned` | vulkanwindow.cpp:76-79 | `aligned` evaluated in uint64_t: the result is a 64-bit value, whatever the inputs |
| `Align.AndHighMask` | vulkanwindow.cpp:78 | for bound = 2^w and q = 2^k with q <= bound, ANDing a value below bound with the mask `bound - q` of bits k..w-1 rounds it down to a multiple of q |
| `Align.MaskRoundsDown` | vulkanwindow.cpp:78 | for a = 2^k below 2^64, `t & ~(a - 1)` on a 64-bit value t is t minus its remainder by a |
| `Align.AlignedIsRoundDown` | vulkanwindow.cpp:76-79 | for a = 2^k and no overflow of v + a - 1, `aligned(v, a)` is v + a - 1 rounded down to a multiple of a |
| `Align.AlignedRoundsUp` | vulkanwindow.cpp:76-79 | for a power-of-two alignment a = 2^k, with v + a - 1 below 2^64: aligned(v, a) is at least v, a multiple of a, and less than a above v |
| `Align.AlignedWrapsOnOverflow` | vulkanwindow.cpp:76-79 | the no-overflow condition is needed: aligned(2^64 - 1, 2) is 0 |
| `Regions.IsEmptyIffNoPixels` | vulkanwindow.cpp:664 | a region of real rectangles is empty exactly when it covers no pixel |
| `Regions.Union` | vulkanwindow.cpp:612 | `+=` covers exactly the pixels of either operand, is empty iff both are, and keeps rectangles real and inside an image that holds both operands |
| `PixelCopy.Memcpy` | vulkanwindow.cpp:836 | the n bytes from `at` on come from the source starting at `from`, and every other byte is unchanged |
| `PixelCopy.HitInSource` | vulkanwindow.cpp:835-836 | for a region inside the image, every byte the loop copies is read from inside the image's bits |
| `PixelCopy.CopyRect` | vulkanwindow.cpp:832-837 | copying the scanlines of one more rectangle of the region leaves every byte as the copy of all rectangles up to and including it puts it: region pixels from the source, every other byte unchanged |
| `PixelCopy.WriteLinearImage` | vulkanwindow.cpp:810-842 | returns exactly the mapping outcome; on failure no byte changes; on success each byte of a region pixel equals the source byte at the same scanline and column, and every other byte keeps its value |
| `SlotMemory.CreateFrom` | vulkanwindow.cpp:731-779 | from slot i on: succeeds iff no later call fails, keeps the images created before a failure, and binds image j at `s * j` |
| `SlotMemory.CreateTextureImage` | vulkanwindow.cpp:727-782 | succeeds iff no call fails; on success each of the count slots has an image, there is memory, m_oneImageSize is the first image's size aligned up, the allocation is `m_oneImageSize * count`, and image j is bound at `m_oneImageSize * j`; slots from count on are untouched |
| `SlotMemory.SlicesDisjoint` | vulkanwindow.cpp:756-774 | with a power-of-two alignment and no overflow, each image's memReq.size bytes at its bound offset lie inside the allocation and end before the next image starts |
| `SlotMemory.ToInt32` | vulkanwindow.cpp:811 | the `int offset` parameter holds a 32-bit value congruent to its argument modulo 2^32 |
| `SlotMemory.UploadOffsetExact` | vulkanwindow.cpp:824 | while `frame * m_oneImageSize` fits in an int, vkMapMemory gets layout.offset plus the slot's offset |
| `SlotMemory.UploadOffsetTruncates` | vulkanwindow.cpp:665 | once `frame * m_oneImageSize` is at least 2^31 but layout.offset plus it stays below 2^32, vkMapMemory gets an offset 2^32 below the intended one, wrapped to at least 2^64 - 2^31 |
| `SlotMemory.UploadOffsetFixedExact` | vulkanwindow.cpp:824 | with the offset kept in VkDeviceSize, every slot of a pool that fits in uint64_t is mapped at layout.offset plus its bound offset |
| `SlotMemory.MappedRangeInSlot` | vulkanwindow.cpp:821-825 | with the offset kept in VkDeviceSize and a pool that fits in uint64_t, the range vkMapMemory maps for a slot starts layout.offset into the slot's bound slice, ends inside it, and misses every other slot's slice |
| `SlotMemory.UploadToSlot` | vulkanwindow.cpp:824-840 | mapping at an offset and copying changes no byte outside the mapped range; inside it each byte is what the copy loop puts at that position of the mapping |
| `Scene.RunQuick` | vulkanwindow.cpp:155-187 | on any error the flags are unchanged; once the root item is installed the scene is running and marked changed |
| `Scene.StartQuick` | vulkanwindow.cpp:198-207 | Quick is started afterwards; it is running and changed exactly when the component loads synchronously without error (or already was) |
| `Scene.SceneChanged` | vulkanwindow.cpp:111-112 | the render-control signals mark the scene changed and touch no other flag |
| `Scene.RenderQuickImage` | vulkanwindow.cpp:135-153 | rendering clears the changed flag and touches no other flag |
| `Streaming.Init` | vulkanwindow.h:92-106 | a new renderer has every per-slot array at MAX_CONCURRENT_FRAME_COUNT entries, null memory, images and views, no m_oneImageSize, the null texture size, nothing pending and no stale descriptor |
| `Streaming.FanOut` | vulkanwindow.cpp:611-612 | each slot below concurrentFrameCount covers its old pixels plus the rendered ones, is empty iff both were, and stays real and inside any image holding both; later slots are unchanged |
| `Streaming.DestroySlots` | vulkanwindow.cpp:577-587 | the handles destroyed are exactly the live views and images of the slots in range |
| `Streaming.ReleaseTex` | vulkanwindow.cpp:573-595 | the handles destroyed are exactly the live views and images below n plus live memory, with the memory last; those fields become null, m_texSize becomes QSize(), and nothing else changes |
| `Streaming.CreateViews` | vulkanwindow.cpp:630-636 | succeeds iff no view creation fails; each slot before the failing one gets a live view and a stale descriptor; other slots and fields are unchanged |
| `Streaming.Resize` | vulkanwindow.cpp:615-637 | starts with vkDeviceWaitIdle, then destructions, then pool creation; succeeds iff no call fails; on success m_texSize is the source size and every slot below count has an image, a view and a stale descriptor; on failure m_texSize is QSize(); pending regions are kept |
| `Streaming.Refresh` | vulkanwindow.cpp:644-661 | a stale current slot gets exactly one descriptor write with its own view and its flag cleared; nothing else changes |
| `Streaming.Consume` | vulkanwindow.cpp:663-669 | a non-empty pending region of the current slot is uploaded once, into that slot's image and the pool memory, and then cleared whatever the write's result; other slots keep theirs |
| `Streaming.FrameTail` | vulkanwindow.cpp:641-669 | the end of a frame leaves the current slot fresh with nothing pending, changes no other slot, and appends exactly the refresh, upload and draw calls |
| `Streaming.Started` | vulkanwindow.cpp:602-603 | after the start-up check Quick is started, and a started window is left as it was |
| `Streaming.StartNextFrame` | vulkanwindow.cpp:597-669 | a frame keeps the array shapes and the flag consistency, leaves Quick started, and never touches slots from concurrentFrameCount on |
| `StreamingProperties.PrefixHasNoRebuild` | vulkanwindow.cpp:602-612 | the start-up check and the scene render make no rebuild call and use no slot |
| `StreamingProperties.TailHasNoRebuild` | vulkanwindow.cpp:641-669 | the end of a frame makes no rebuild call |
| `StreamingProperties.NoRebuildCalls` | vulkanwindow.cpp:614-619 | a frame whose scene size matches m_texSize (or renders nothing) makes no rebuild call |
| `StreamingProperties.RebuildStartsWithWait` | vulkanwindow.cpp:615-621 | a rebuilding frame calls vkDeviceWaitIdle right after the scene render, with no rebuild call before it |
| `StreamingProperties.ResizeIffNeeded` | vulkanwindow.cpp:607-619 | vkDeviceWaitIdle is called iff Quick runs with a changed scene whose non-null image differs in size from m_texSize |
| `StreamingProperties.ResizeReleasesOldPool` | vulkanwindow.cpp:619-621 | a rebuild destroys exactly the live views and images of the used slots and the old memory |
| `StreamingProperties.WaitIdleBeforeRelease` | vulkanwindow.cpp:619-623 | every rebuild call of a frame comes after its vkDeviceWaitIdle |
| `StreamingProperties.ResizeSucceeds` | vulkanwindow.cpp:615-661 | a successful rebuild leaves m_texSize equal to the source size, memory and m_oneImageSize set, an image and view in every used slot, every other used slot stale, and the current slot's descriptor rewritten with its new view right after the rebuild calls, and the draw as the last call |
| `StreamingProperties.ResizeFailsEarly` | vulkanwindow.cpp:621-634 | a failed rebuild returns before any descriptor write, upload or draw, leaves m_texSize at QSize(), and keeps every pending region with this frame's region added |
| `StreamingProperties.RetryAfterFailedResize` | vulkanwindow.cpp:614-629 | after a failed rebuild, the next changed frame with a non-null image rebuilds again (if a next frame comes: see the `frameReady` line under Left out) |
| `StreamingProperties.PrefixUsesNoPool` | vulkanwindow.cpp:602-637 | nothing before the end of a frame writes a descriptor, uploads or draws |
| `StreamingProperties.FrameEndsWithTail` | vulkanwindow.cpp:641-669 | a frame that is not aborted makes its earlier calls and then exactly the end-of-frame calls read off the state at line 641 |
| `StreamingProperties.TailCalls` | vulkanwindow.cpp:644-669 | the end of a frame writes at most the current slot's descriptor with its view and uploads only the current slot, which it does whenever the slot has something pending |
| `StreamingProperties.OnlyCurrentSlotTouched` | vulkanwindow.cpp:644-669 | every descriptor write and upload of a frame is for the current slot, uploads go to its image and the pool memory, with the `int` offset made from `frame * m_oneImageSize` |
| `StreamingProperties.RefreshKeepsOtherSlots` | vulkanwindow.cpp:644-661 | without a rebuild other slots' descriptor flags are unchanged; the current slot's flag is clear after every frame that is not aborted |
| `StreamingProperties.PendingAccumulates` | vulkanwindow.cpp:610-612 | after a scene render every other used slot covers its old pixels plus the rendered ones; without a render the other slots are unchanged |
| `StreamingProperties.TailStartPending` | vulkanwindow.cpp:607-612 | at the end of the frame the current slot's pending region covers its old pixels plus any rendered ones, and is empty iff both are |
| `StreamingProperties.PendingUploaded` | vulkanwindow.cpp:663-669 | a frame that is not aborted uploads iff the current slot's old or newly rendered region is non-empty; the upload covers exactly those pixels, and the slot ends with nothing pending |
| `StreamingProperties.ConsumeTwice` | vulkanwindow.cpp:663-669 | a second consume of the same slot uploads nothing and changes nothing |
| `StreamingProperties.QuietFrame` | vulkanwindow.cpp:641-669 | a frame with no render, on a slot neither stale nor pending, only draws and changes nothing |
| `StreamingProperties.SecondPassNoUpload` | vulkanwindow.cpp:663-669 | right after a frame that is not aborted, a frame on the same slot with no render uploads nothing |
| `StreamingProperties.FirstFrameWhileLoading` | vulkanwindow.cpp:597-603 | the first frame, with the component still loading, starts Quick and only draws; the renderer stays as constructed |
| `StreamingProperties.SourceAssignedBeforeUpload` | vulkanwindow.cpp:610-665 | nothing is pending before m_source is assigned, every frame keeps that, and every upload has a source image |
| `Counterexamples.ShrinkFirstFrame` | vulkanwindow.cpp:607-637 | the first frame of a two-slot run builds a 2x2 pool and leaves slot 1 with the 2x2 rectangle pending |
| `Counterexamples.ShrinkRebuildKeepsStale` | vulkanwindow.cpp:610-637 | rebuilding for a 1x1 scene leaves slot 1 pending exactly the old 2x2 pixels, which do not fit the new 1x1 image |
| `Counterexamples.ShrinkSecondFrame` | vulkanwindow.cpp:610-669 | from there, slot 1 uploads a region that covers exactly the 2x2 square, which does not fit the 1x1 image and texture |
| `Counterexamples.ShrinkUploadsStaleRegion` | vulkanwindow.cpp:610-665 | two frames from the start, a shrinking scene makes slot 1 upload, out of a 1x1 image into a 1x1 texture, a region that covers exactly the 2x2 square and so does not fit the image |
| `Counterexamples.FailedResizeFirstFrame` | vulkanwindow.cpp:615-628 | when the first vkCreateImage of the two-slot rebuild fails, the pool is left with null memory and images and no m_oneImageSize, slot 1 keeps the 2x2 rectangle pending, and the next frame renders no scene |
| `Counterexamples.IdleFrameUploads` | vulkanwindow.cpp:602-669 | a frame that renders no scene still uploads the current slot's pending region, from the pool's image and memory at the offset made from m_oneImageSize |
| `Counterexamples.UploadAfterFailedResize` | vulkanwindow.cpp:621-665 | after a rebuild whose first vkCreateImage fails, the next frame without a scene change uploads into a null image and null memory at an offset from a never-assigned m_oneImageSize |
| `Corrected.SlotOffsetFixed` | vulkanwindow.cpp:665 | the repaired offset exists iff m_oneImageSize does, and is the uint64_t slot offset vkMapMemory should get |
| `Corrected.Refill` | vulkanwindow.cpp:611-612 | the repaired rebuild gives every used slot the given region and leaves the rest |
| `Corrected.GuardedTail` | vulkanwindow.cpp:641-669 | the repaired end of frame keeps the earlier calls and ends with the draw; with a pool that does not match the source image it changes nothing and writes no descriptor and uploads nothing; otherwise the current slot ends fresh and drained, other slots keep their flags and regions, it uploads iff something was pending, and every upload is the slot's pending region at the uint64_t slot offset |
| `Corrected.StartNextFrameFixed` | vulkanwindow.cpp:597-669 | the repaired step keeps the array shapes and the flag consistency, and leaves Quick started |
| `Corrected.NullImageHasNoRegion` | vulkanwindow.cpp:614 | a region of real rectangles inside a null image is empty |
| `Corrected.MatchedTailSafe` | vulkanwindow.cpp:641-669 | on a pool that matches the source image, the end of a frame keeps PoolReady and its only upload is the current slot's, safe and at the slot's uint64_t offset |
| `Corrected.GuardedTailSafe` | vulkanwindow.cpp:641-669 | the repaired end of frame keeps PoolReady, and each upload it makes is safe and at the slot's uint64_t offset |
| `Corrected.FannedKeepsPoolReady` | vulkanwindow.cpp:610-612 | fanning out a scene region that lies inside its image keeps PoolReady when no rebuild follows |
| `Corrected.RefilledKeepsPoolReady` | vulkanwindow.cpp:615-637 | a successful rebuild followed by the refill establishes PoolReady at the source size |
| `Corrected.RebuildFrameSafe` | vulkanwindow.cpp:607-669 | a repaired frame that rebuilds keeps PoolReady and makes only safe uploads |
| `Corrected.PlainFrameSafe` | vulkanwindow.cpp:641-669 | a repaired frame that does not rebuild keeps PoolReady and makes only safe uploads |
| `Corrected.FixedKeepsPoolReady` | vulkanwindow.cpp:597-669 | every repaired frame keeps PoolReady; each upload goes to a live image and memory, from a source of the pool's size, with rectangles inside it, at the slot's uint64_t offset |
| `Corrected.InitPoolReady` | vulkanwindow.h:92-106 | a new renderer satisfies PoolReady |
| `Corrected.RefilledTail` | vulkanwindow.cpp:641-669 | when every used slot holds the same non-empty pending region, the end of a frame leaves it pending in every other used slot and uploads it for the current one |
| `Corrected.FixedRebuildRefreshesEverySlot` | vulkanwindow.cpp:610-637 | after a successful repaired rebuild every other used slot has exactly the whole new image pending, and the current slot uploads the whole image |

## Left out

- `initResources`, the pipeline, sampler, descriptor pool and layout, and the vertex buffer are
  left out. They are Vulkan object construction that is fatal on failure.
- The command recording and draw after line 669 are one `Drawn` call. The viewport and the
  animated clear colour are floating point.
- `frameReady` (vulkanwindow.cpp:722) and `requestUpdate` (vulkanwindow.cpp:724) are not
  modelled. The two early returns of a failed rebuild (vulkanwindow.cpp:628, 633) skip both, and
  the scene signals (vulkanwindow.cpp:111-112) only set a flag. So after a failed rebuild the
  program asks for no further frame, and QVulkanWindow starts none while one is pending. The
  model lets the world supply the next frame anyway. In the program that frame needs an outside
  trigger, such as a swap-chain reset or the window being exposed again. This applies to the
  second frame of `Counterexamples.UploadAfterFailedResize` and to
  `StreamingProperties.RetryAfterFailedResize`.
- `Regions.Union` is stated by the pixels it covers, not by its rectangle list. `QRegion`'s `+=`
  keeps a normalised list of disjoint bands, while the model appends the rectangles. The copy of
  `writeLinearImage` (`PixelCopy.Expected`) and every property here depend only on the covered
  pixels and on the rectangles lying inside the image, which both representations agree on.
- `Corrected.GuardedTail` repairs only the descriptor refresh and the upload. While the pool does
  not match the source it still draws, and that draw binds `m_descSet[frame]`, which can name a
  view `releaseTex` destroyed. The repair does not cover that draw.
- The MVP matrices and `createShader` (file I/O) are left out.
- `onScreenChanged` (vulkanwindow.cpp:225-229) is left out. It compares qreal device pixel ratios.
  It is also the only way the scene image changes size: it calls `resizeQuickImage`
  (vulkanwindow.cpp:209-216), while `createQuickImage` returns early once an image exists
  (vulkanwindow.cpp:126-127) and `updateQuickSizes` always sets QUICK_W x QUICK_H
  (vulkanwindow.cpp:189-196). The model instead lets the world pick each render's image, of any
  size. So a scene that shrinks stands for a move to a screen with a lower device pixel ratio.
- The alias `m_source = &m_quickImage` (vulkanwindow.cpp:152, 610) is not modelled.
  `Renderer.source` holds a copy of the image at the last render. In the program a later
  `resizeQuickImage` replaces the image behind the pointer, so an upload reads whatever
  `m_quickImage` holds then. The model's copy is the image as it was rendered.
- The Qt Quick machinery is the `LoadOutcome` and `Rendered` values chosen by the world. That
  covers the QML engine, component loading, `create()`, the render control's polish/sync/render
  and `updateQuickSizes`. Only the three flags are modelled.
- The accessors `isQuickStarted`, `isQuickRunning` and `hasQuickSceneChanged` are the field
  reads `w.quickStarted`, `w.quickRunning` and `w.quickSceneChanged`.
- vkGetImageMemoryRequirements and vkGetImageSubresourceLayout are parameters. These are the
  frame's `MemReq` and the `rowPitch`, layout offset and layout size given to `PixelCopy` and
  `SlotMemory`. Vulkan only promises that the requirements of identical images agree, so the
  first image's requirements stand for all of them.
- Handle values are fresh numbers from a counter in `Pool`, with 0 for VK_NULL_HANDLE. The pixel
  bytes of device memory are not part of `Renderer`. An upload is recorded as a call with its
  arguments, and `SlotMemory.UploadToSlot` states what such a call does to the bytes.
- Concurrency between in-flight frames is left out. `currentFrame()` is any index below
  `concurrentFrameCount()`, and the GPU's use of a slot is not modelled.
- The `qDebug` and `qWarning` diagnostics are left out.
- `PixelCopy.WriteLinearImage` requires the region to lie inside the image and the mapping to hold
  every row. The source does not check either: outside them it reads and writes out of bounds,
  which is what the first finding below reaches.
- `SlotMemory.SlicesDisjoint` requires a power-of-two alignment, as Vulkan guarantees for
  memory requirements, and no uint64_t overflow of `m_oneImageSize * count`.
- `Corrected.FixedKeepsPoolReady` assumes that the scene render returns a region of real
  rectangles inside its image (`Corrected.SceneOk`). The software renderer's flush region is
  not modelled.
- `Streaming.StartNextFrame` only states shape and frame facts in its own contract. Its
  behaviour is stated by the `StreamingProperties` lemmas, which relate several of its parts.

## Findings

| source | as written | input that shows it | evidently intended | confidence | as-written member | corrected member |
|---|---|---|---|---|---|---|
| vulkanwindow.cpp:610-637 | a rebuild keeps every slot's pending region, so a slot that was not current when the scene was larger still has pixels of the old image pending | two slots; frame 1 on slot 0 renders a 2x2 scene, frame 2 on slot 1 renders 1x1. The shrink stands for the window moving to a screen with a lower device pixel ratio, which is the only way `resizeQuickImage` is reached (vulkanwindow.cpp:225-229) | after a rebuild every used slot is pending the whole new image and nothing else | not executed; medium (the stale rectangles go to writeLinearImage, which reads scanlines past the 1x1 image) | `Counterexamples.ShrinkUploadsStaleRegion` | `Corrected.FixedRebuildRefreshesEverySlot` |
| vulkanwindow.cpp:621-665 | after a failed rebuild, the next frame without a scene change still refreshes and uploads the current slot | two slots; frame 1 renders 2x2 and the first vkCreateImage fails; frame 2 on slot 1 renders nothing | skip the refresh and upload while m_texSize does not match the source image | not executed; low (the failed rebuild returns before `frameReady` and `requestUpdate`, so the second frame needs an outside trigger such as a swap-chain reset or re-expose; given one, a frame without a scene change is possible) | `Counterexamples.UploadAfterFailedResize` | `Corrected.FixedKeepsPoolReady` |
| vulkanwindow.cpp:665 | `frame * m_oneImageSize` is passed through the `int offset` parameter of writeLinearImage | slots of 2^30 bytes, frame 2: the offset 2^31 becomes -2^31, and vkMapMemory gets 2^64 - 2^31 | keep the offset in VkDeviceSize | not executed; low (needs textures of a gigabyte per slot) | `SlotMemory.UploadOffsetTruncates` | `SlotMemory.UploadOffsetFixedExact` |

The repaired step `Corrected.StartNextFrameFixed` does three things:

- It refills every used slot with the whole image after a successful rebuild (`Corrected.Refill`).
- It runs the refresh and upload only while `Corrected.Matches` holds.
- It uses `Corrected.SlotOffsetFixed`.

`Corrected.FixedKeepsPoolReady` proves that every upload it makes is safe, from any state that
satisfies `Corrected.PoolReady`, which `Corrected.InitPoolReady` establishes.
