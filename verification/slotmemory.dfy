/**
 * The texture pool's memory layout: createTextureImage (vulkanwindow.cpp:727-782) creates one
 * image per slot and backs them with a single allocation of `m_oneImageSize * count` bytes,
 * binding image i at offset `m_oneImageSize * i`; the upload of slot `frame` maps memory at
 * `frame * m_oneImageSize` (vulkanwindow.cpp:665, 824).
 */
module SlotMemory {
  import opened Common
  import opened Align
  import opened Raster
  import opened Regions
  import opened PixelCopy

  /** VkMemoryRequirements of the first image. */
  datatype MemReq = MemReq(size: nat, alignment: nat)

  /**
   * The first Vulkan call of a pool rebuild that does not return VK_SUCCESS, if any:
   * vkCreateImage for a slot, vkAllocateMemory, vkBindImageMemory for a slot, or
   * vkCreateImageView for a slot.
   */
  datatype Failure = NoFailure | ImageFails(slot: nat) | AllocateFails | BindFails(slot: nat) | ViewFails(slot: nat)

  /** The renderer fields createTextureImage writes, plus the supply of fresh handles. */
  datatype Pool = Pool(images: seq<Handle>, mem: Handle, oneImageSize: Option<nat>, next: Handle)

  /** Result of createTextureImage: its return value, the fields it wrote, and the offsets it bound images at. */
  datatype Created = Created(ok: bool, pool: Pool, allocation: nat, bound: seq<nat>)

  /** Some call made by createTextureImage for the slots i .. count-1 fails. */
  predicate FailsFrom(fail: Failure, i: nat, count: nat)
  {
    match fail
    case ImageFails(j) => i <= j < count
    case AllocateFails => i == 0 < count
    case BindFails(j) => i <= j < count
    case _ => false
  }

  /** Number of images createTextureImage has created when it stops. */
  function ImagesCreated(fail: Failure, count: nat): nat
  {
    match fail
    case ImageFails(j) => if j < count then j else count
    case AllocateFails => if count > 0 then 1 else 0
    case BindFails(j) => if j < count then j + 1 else count
    case _ => count
  }

  /** The memory requirement fits in VkDeviceSize. */
  predicate ReqInRange(req: MemReq)
  {
    req.size < U64 && req.alignment < U64
  }

  /**
   * The loop of createTextureImage, from slot i on; s is aligned(memReq.size, memReq.alignment)
   * of the first image, which the loop stores in m_oneImageSize when i is 0.
   */
  function CreateFrom(i: nat, count: nat, s: nat, fail: Failure, c: Created): (r: Created)
    requires i <= count <= |c.pool.images| && |c.bound| == i
    requires i > 0 ==> c.pool.oneImageSize == Some(s) && c.pool.mem != Null
    requires forall j :: 0 <= j < i ==> c.pool.images[j] != Null && c.bound[j] == Wrap(s * j)
    ensures |r.pool.images| == |c.pool.images|
    ensures forall j :: count <= j < |c.pool.images| ==> r.pool.images[j] == c.pool.images[j]
    ensures forall j :: 0 <= j < ImagesCreated(fail, count) ==> r.pool.images[j] != Null
    ensures r.ok <==> !FailsFrom(fail, i, count)
    ensures r.ok ==> |r.bound| == count && forall j :: 0 <= j < count ==> r.bound[j] == Wrap(s * j)
    ensures r.ok && count > 0 ==> r.pool.oneImageSize == Some(s) && r.pool.mem != Null
    ensures r.ok && i > 0 ==> r.allocation == c.allocation
    ensures r.ok && i == 0 && count > 0 ==> r.allocation == Wrap(s * count)
    decreases count - i
  {
    if i == count then c.(ok := true)
    else if fail == ImageFails(i) then c.(ok := false)
    else
      var image := c.pool.next + 1;
      var p := c.pool.(images := c.pool.images[i := image], next := image);
      if i == 0 && fail == AllocateFails then
        c.(ok := false, pool := p.(oneImageSize := Some(s)))
      else
        var p' := if i == 0 then p.(oneImageSize := Some(s), mem := p.next + 1, next := p.next + 1) else p;
        var allocation := if i == 0 then Wrap(s * count) else c.allocation;
        if fail == BindFails(i) then c.(ok := false, pool := p', allocation := allocation)
        else CreateFrom(i + 1, count, s, fail, Created(true, p', allocation, c.bound + [Wrap(s * i)]))
  }

  /**
   * createTextureImage(count, ...), vulkanwindow.cpp:727-782: it succeeds exactly when no call
   * fails; then every slot below count holds an image, m_oneImageSize is the first image's size
   * aligned up, the allocation is m_oneImageSize * count and image i is bound at
   * m_oneImageSize * i (all in uint64_t). On failure the images created so far stay in place.
   */
  function CreateTextureImage(count: nat, req: MemReq, fail: Failure, pool: Pool): (r: Created)
    requires ReqInRange(req) && count <= |pool.images|
    ensures |r.pool.images| == |pool.images|
    ensures forall j :: count <= j < |pool.images| ==> r.pool.images[j] == pool.images[j]
    ensures forall j :: 0 <= j < ImagesCreated(fail, count) ==> r.pool.images[j] != Null
    ensures r.ok <==> !FailsFrom(fail, 0, count)
    ensures r.ok ==> |r.bound| == count
    ensures r.ok && count > 0 ==> r.pool.mem != Null
    ensures r.ok && count > 0 ==> r.pool.oneImageSize == Some(Aligned(req.size, req.alignment))
    ensures r.ok && count > 0 ==> r.allocation == Wrap(Aligned(req.size, req.alignment) * count)
    ensures r.ok ==> forall j :: 0 <= j < count ==> r.bound[j] == Wrap(Aligned(req.size, req.alignment) * j)
  {
    CreateFrom(0, count, Aligned(req.size, req.alignment), fail, Created(true, pool, 0, []))
  }

  /** Slice i of a pool of count slices of s bytes lies inside the allocation and before slice j. */
  lemma SliceBounds(s: nat, size: nat, count: nat, i: nat, j: nat)
    requires size <= s && s * count < U64 && i < j <= count
    ensures Wrap(s * i) == s * i && Wrap(s * j) == s * j
    ensures Wrap(s * i) + size <= Wrap(s * j)
  {
    MulLeft(i + 1, j, s);
    MulLeft(j, count, s);
  }

  /**
   * With a power-of-two alignment and no uint64 overflow, the images of a pool created by
   * createTextureImage occupy disjoint slices of the one allocation: image i needs memReq.size
   * bytes at its bound offset, and those end inside the allocation and before image j > i starts.
   */
  lemma {:induction false} SlicesDisjoint(count: nat, req: MemReq, k: nat, fail: Failure, pool: Pool)
    requires ReqInRange(req) && count <= |pool.images|
    requires req.alignment == Pow2(k) && Pow2(k) < U64 && req.size + Pow2(k) - 1 < U64
    requires Aligned(req.size, req.alignment) * count < U64
    requires CreateTextureImage(count, req, fail, pool).ok
    ensures forall i :: 0 <= i < count ==>
      CreateTextureImage(count, req, fail, pool).bound[i] + req.size <= CreateTextureImage(count, req, fail, pool).allocation
    ensures forall i, j :: 0 <= i < j < count ==>
      CreateTextureImage(count, req, fail, pool).bound[i] + req.size <= CreateTextureImage(count, req, fail, pool).bound[j]
  {
    var r := CreateTextureImage(count, req, fail, pool);
    var s := Aligned(req.size, req.alignment);
    AlignedRoundsUp(req.size, req.alignment, k);
    forall i | 0 <= i < count
      ensures r.bound[i] + req.size <= r.allocation
    {
      SliceBounds(s, req.size, count, i, count);
    }
    forall i, j | 0 <= i < j < count
      ensures r.bound[i] + req.size <= r.bound[j]
    {
      SliceBounds(s, req.size, count, i, j);
    }
  }

  const Two31: int := 0x8000_0000
  const Two32: int := 0x1_0000_0000

  /** Conversion of an integer to a 32-bit `int`, keeping the low 32 bits as two's complement. */
  function ToInt32(x: int): (r: int)
    ensures -Two31 <= r < Two31
    ensures (r - x) % Two32 == 0
  {
    var t := x % Two32;
    if t < Two31 then t else t - Two32
  }

  /**
   * Offset vkMapMemory receives in writeLinearImage for slot `frame` (vulkanwindow.cpp:665, 824):
   * `frame * m_oneImageSize` is computed in uint64_t, passed through the `int offset` parameter,
   * and added back to the uint64_t `layout.offset`.
   */
  function MapOffset(layoutOffset: nat, frame: nat, s: nat): nat
  {
    Wrap(layoutOffset + ToInt32(Wrap(frame * s)))
  }

  /** The same offset with the slot offset kept in VkDeviceSize. */
  function MapOffsetFixed(layoutOffset: nat, frame: nat, s: nat): nat
  {
    Wrap(layoutOffset + Wrap(frame * s))
  }

  /** While `frame * m_oneImageSize` fits in an `int`, the upload maps slot frame's own memory. */
  lemma UploadOffsetExact(layoutOffset: nat, frame: nat, s: nat)
    requires frame * s < Two31 && layoutOffset + frame * s < U64
    ensures MapOffset(layoutOffset, frame, s) == layoutOffset + frame * s
  {
  }

  /**
   * Once `frame * m_oneImageSize` reaches 2^31 (and still fits in 32 bits), the `int` parameter
   * turns it negative: vkMapMemory gets an offset 2^32 below the intended one, wrapped into the
   * top 2 GiB of the uint64_t range, far outside any allocation (for example slot 2 of 1 GiB slots).
   */
  lemma UploadOffsetTruncates(layoutOffset: nat, frame: nat, s: nat)
    requires Two31 <= frame * s && layoutOffset + frame * s < Two32
    ensures MapOffsetFixed(layoutOffset, frame, s) == layoutOffset + frame * s
    ensures MapOffset(layoutOffset, frame, s) == MapOffsetFixed(layoutOffset, frame, s) + U64 - Two32
    ensures MapOffset(layoutOffset, frame, s) >= U64 - Two31
  {
    SignedOffset(layoutOffset, frame * s);
  }

  /** A slot offset t in [2^31, 2^32) goes through the `int` as t - 2^32 and wraps back as t + 2^64 - 2^32. */
  lemma SignedOffset(layoutOffset: nat, t: nat)
    requires Two31 <= t && layoutOffset + t < Two32
    ensures Wrap(layoutOffset + Wrap(t)) == layoutOffset + t
    ensures Wrap(layoutOffset + ToInt32(Wrap(t))) == layoutOffset + t + U64 - Two32
  {
    assert Wrap(t) == t;
    assert ToInt32(t) == t - Two32;
  }


  /**
   * Keeping the offset in VkDeviceSize maps slot frame at its bound offset plus layout.offset for
   * every slot of a pool that fits in uint64_t.
   */
  lemma UploadOffsetFixedExact(layoutOffset: nat, frame: nat, s: nat, count: nat)
    requires frame < count && s * count < U64 && layoutOffset + s * count < U64
    ensures MapOffsetFixed(layoutOffset, frame, s) == layoutOffset + Wrap(s * frame)
    ensures Wrap(s * frame) == s * frame
  {
    MulLeft(frame, count, s);
  }

  /**
   * The range writeLinearImage maps for slot frame, with the offset kept in VkDeviceSize: it
   * starts layout.offset bytes into the slot's bound slice, and its layout.size bytes end inside
   * that slice, so it overlaps no other slot's slice of the allocation.
   */
  lemma MappedRangeInSlot(s: nat, size: nat, count: nat, frame: nat, layoutOffset: nat, layoutSize: nat)
    requires size <= s && s * count < U64 && layoutOffset + s * count < U64 && frame < count
    requires layoutOffset + layoutSize <= size
    ensures MapOffsetFixed(layoutOffset, frame, s) == Wrap(s * frame) + layoutOffset
    ensures MapOffsetFixed(layoutOffset, frame, s) + layoutSize <= Wrap(s * frame) + size
    ensures forall j :: 0 <= j < count && j != frame ==>
      Wrap(s * j) + size <= MapOffsetFixed(layoutOffset, frame, s)
      || MapOffsetFixed(layoutOffset, frame, s) + layoutSize <= Wrap(s * j)
  {
    UploadOffsetFixedExact(layoutOffset, frame, s, count);
    forall j | 0 <= j < count && j != frame
      ensures Wrap(s * j) + size <= Wrap(s * frame) + layoutOffset || Wrap(s * frame) + layoutOffset + layoutSize <= Wrap(s * j)
    {
      if j < frame {
        SliceBounds(s, size, count, j, frame);
      } else {
        SliceBounds(s, size, count, frame, j);
      }
    }
  }

  /**
   * Maps `mapSize` bytes of the allocation at `mapAt` and runs the copy of writeLinearImage on
   * them (vulkanwindow.cpp:810-842): no byte outside the mapped range changes, and inside it
   * every byte is what the copy puts at that offset of the mapping.
   */
  method UploadToSlot(memory: seq<byte>, mapAt: nat, mapSize: nat, img: Image, rowPitch: nat, mapOk: bool, rg: Region)
    returns (ok: bool, out: seq<byte>)
    requires mapAt + mapSize <= |memory|
    requires Fits(img, rowPitch, mapSize) && Valid(rg) && Within(rg, img.width, img.height)
    ensures ok == mapOk && |out| == |memory|
    ensures !ok ==> out == memory
    ensures forall k :: 0 <= k < |memory| && !(mapAt <= k < mapAt + mapSize) ==> out[k] == memory[k]
    ensures ok ==> forall k :: mapAt <= k < mapAt + mapSize ==>
      out[k] == Expected(img, rowPitch, memory[mapAt..mapAt + mapSize], rg, k - mapAt)
  {
    var mapped := memory[mapAt..mapAt + mapSize];
    var written;
    ok, written := WriteLinearImage(img, rowPitch, mapOk, mapped, rg);
    out := memory[..mapAt] + written + memory[mapAt + mapSize..];
    assert forall k :: mapAt <= k < mapAt + mapSize ==> out[k] == written[k - mapAt];
    if !ok {
      assert written == mapped;
      assert out == memory;
    }
  }
}
