/**
 * The copy loop of writeLinearImage (vulkanwindow.cpp:831-838): for each rectangle of the dirty
 * region and each of its rows, `width * 4` bytes go from the image scanline to the mapped texture
 * memory, whose rows are `rowPitch` bytes apart.
 */
module PixelCopy {
  import opened Raster
  import opened Regions
  import Align

  /** memcpy(dst + at, src + from, n), on byte sequences. */
  function Memcpy(dst: seq<byte>, at: nat, src: seq<byte>, from: nat, n: nat): (r: seq<byte>)
    requires at + n <= |dst| && from + n <= |src|
    ensures |r| == |dst|
    ensures forall k :: 0 <= k < |r| ==> r[k] == (if at <= k < at + n then src[from + (k - at)] else dst[k])
  {
    dst[..at] + src[from..from + n] + dst[at + n..]
  }

  /**
   * The mapped memory of a linear image with the given row pitch holds every row of img,
   * and each row of the texture is at least as wide as a row of pixels.
   */
  predicate Fits(img: Image, rowPitch: nat, mapped: nat)
  {
    img.WellFormed() && BytesPerPixel * img.width <= rowPitch && img.height * rowPitch <= mapped
  }

  /** Byte k of the mapped memory is part of a pixel in the region. */
  predicate Hit(rg: Region, rowPitch: nat, k: nat)
  {
    rowPitch > 0 && Covers(rg, (k % rowPitch) / BytesPerPixel, k / rowPitch)
  }

  /** Byte offset of pixel column x in row y of rows `pitch` bytes apart: `pitch * y + preamble`. */
  function PixelOffset(pitch: nat, x: nat, y: nat): nat
  {
    pitch * y + x * BytesPerPixel
  }

  lemma MulLeft(a: nat, b: nat, c: nat)
    requires a <= b
    ensures a * c <= b * c
  {
  }

  /** Column c of row y of an image whose rows are `pitch` bytes apart lies before row h. */
  lemma IndexBelow(y: nat, c: nat, pitch: nat, h: nat)
    requires y < h && c < pitch
    ensures y * pitch + c < h * pitch
  {
    MulLeft(y + 1, h, pitch);
  }

  /** A byte of the region sits at the same column of the same scanline of the source image. */
  lemma HitInSource(img: Image, rowPitch: nat, rg: Region, k: nat)
    requires img.WellFormed() && Within(rg, img.width, img.height) && Hit(rg, rowPitch, k)
    ensures (k / rowPitch) * img.bytesPerLine + k % rowPitch < |img.bits|
  {
    var y, c := k / rowPitch, k % rowPitch;
    var i :| 0 <= i < |rg| && RectContains(rg[i], c / BytesPerPixel, y);
    assert y < img.height;
    assert c / BytesPerPixel < img.width;
    assert c < img.bytesPerLine;
    IndexBelow(y, c, img.bytesPerLine, img.height);
  }

  /** Byte k of the mapped memory once the region has been copied in. */
  function Expected(img: Image, rowPitch: nat, mem: seq<byte>, rg: Region, k: nat): byte
    requires img.WellFormed() && Within(rg, img.width, img.height) && k < |mem|
  {
    if Hit(rg, rowPitch, k) then
      HitInSource(img, rowPitch, rg, k);
      img.bits[(k / rowPitch) * img.bytesPerLine + k % rowPitch]
    else mem[k]
  }

  /** The rows y0 .. y-1 of rectangle r. */
  function RowsDone(r: Rect, y: int): Rect
  {
    Rect(r.x, r.y, r.width, y - r.y)
  }

  /** Rows of rectangle r that are complete, on top of the first i rectangles. */
  function Partial(rg: Region, i: nat, y: int): Region
    requires i < |rg|
  {
    Union(rg[..i], [RowsDone(rg[i], y)])
  }

  lemma SingleCovers(r: Rect, px: int, py: int)
    ensures Covers([r], px, py) <==> RectContains(r, px, py)
  {
    if RectContains(r, px, py) {
      assert [r][0] == r;
    }
  }

  /** One more row of rectangle i adds exactly the pixels of that row. */
  lemma CoversPartial(rg: Region, i: nat, y: int, px: int, py: int)
    requires i < |rg| && rg[i].y <= y
    ensures Covers(Partial(rg, i, y + 1), px, py) <==>
              Covers(Partial(rg, i, y), px, py) || (py == y && rg[i].x <= px < rg[i].x + rg[i].width)
  {
    SingleCovers(RowsDone(rg[i], y), px, py);
    SingleCovers(RowsDone(rg[i], y + 1), px, py);
  }

  /** A byte inside the copied row takes the source byte of the same row and column. */
  lemma RowStepInside(img: Image, rowPitch: nat, mem: seq<byte>, rg: Region, i: nat, y: nat, k: nat, at: nat, from: nat)
    requires img.WellFormed() && BytesPerPixel * img.width <= rowPitch && Valid(rg)
    requires i < |rg| && rg[i].y <= y < img.height && 0 <= rg[i].x && rg[i].x + rg[i].width <= img.width
    requires Within(Partial(rg, i, y + 1), img.width, img.height) && k < |mem|
    requires at == rowPitch * y + rg[i].x * BytesPerPixel && from == y * img.bytesPerLine + rg[i].x * BytesPerPixel
    requires at <= k < at + rg[i].width * BytesPerPixel
    ensures from + (k - at) < |img.bits|
    ensures Expected(img, rowPitch, mem, Partial(rg, i, y + 1), k) == img.bits[from + (k - at)]
  {
    var r := rg[i];
    var c := k - rowPitch * y;
    assert 0 <= c < rowPitch;
    Align.DivModUnique(k, rowPitch, y, c);
    assert r.x <= c / BytesPerPixel < r.x + r.width;
    CoversPartial(rg, i, y, c / BytesPerPixel, y);
    assert Hit(Partial(rg, i, y + 1), rowPitch, k);
    IndexBelow(y, c, img.bytesPerLine, img.height);
  }

  /** A byte outside the copied row is hit by the longer partial region exactly when by the shorter one. */
  lemma RowStepOutside(img: Image, rowPitch: nat, mem: seq<byte>, rg: Region, i: nat, y: nat, k: nat, at: nat)
    requires img.WellFormed() && rowPitch > 0
    requires i < |rg| && rg[i].y <= y
    requires Within(Partial(rg, i, y), img.width, img.height) && Within(Partial(rg, i, y + 1), img.width, img.height)
    requires k < |mem|
    requires at == rowPitch * y + rg[i].x * BytesPerPixel
    requires !(at <= k < at + rg[i].width * BytesPerPixel)
    ensures Expected(img, rowPitch, mem, Partial(rg, i, y + 1), k) == Expected(img, rowPitch, mem, Partial(rg, i, y), k)
  {
    var r := rg[i];
    var row, c := k / rowPitch, k % rowPitch;
    assert k == row * rowPitch + c;
    assert !(row == y && r.x <= c / BytesPerPixel < r.x + r.width);
    CoversPartial(rg, i, y, c / BytesPerPixel, row);
    assert Hit(Partial(rg, i, y + 1), rowPitch, k) == Hit(Partial(rg, i, y), rowPitch, k);
  }

  /** The bytes of row y of rectangle r lie inside the mapped memory and inside the source image. */
  lemma RowInBounds(img: Image, rowPitch: nat, mapped: nat, r: Rect, y: int)
    requires Fits(img, rowPitch, mapped)
    requires r.width > 0 && 0 <= r.x && r.x + r.width <= img.width && 0 <= y < img.height
    ensures rowPitch * y + r.x * BytesPerPixel + r.width * BytesPerPixel <= mapped
    ensures y * img.bytesPerLine + r.x * BytesPerPixel + r.width * BytesPerPixel <= |img.bits|
  {
    MulLeft(y + 1, img.height, rowPitch);
    MulLeft(y + 1, img.height, img.bytesPerLine);
  }

  /** Copying row y of rectangle i turns the result for the rows before y into the result including y. */
  lemma CopyRow(img: Image, rowPitch: nat, mem: seq<byte>, rg: Region, i: nat, y: nat, before: seq<byte>)
    requires Fits(img, rowPitch, |mem|) && Valid(rg) && Within(rg, img.width, img.height)
    requires i < |rg| && rg[i].y <= y < rg[i].y + rg[i].height
    requires Within(Partial(rg, i, y), img.width, img.height) && |before| == |mem|
    requires forall k :: 0 <= k < |before| ==> before[k] == Expected(img, rowPitch, mem, Partial(rg, i, y), k)
    ensures 0 <= rg[i].x && PixelOffset(rowPitch, rg[i].x, y) + rg[i].width * BytesPerPixel <= |mem|
    ensures PixelOffset(img.bytesPerLine, rg[i].x, y) + rg[i].width * BytesPerPixel <= |img.bits|
    ensures Within(Partial(rg, i, y + 1), img.width, img.height)
    ensures var after := Memcpy(before, PixelOffset(rowPitch, rg[i].x, y), img.bits,
                                PixelOffset(img.bytesPerLine, rg[i].x, y), rg[i].width * BytesPerPixel);
            forall k :: 0 <= k < |after| ==> after[k] == Expected(img, rowPitch, mem, Partial(rg, i, y + 1), k)
  {
    var r := rg[i];
    RowInBounds(img, rowPitch, |mem|, r, y);
    var at, from := PixelOffset(rowPitch, r.x, y), PixelOffset(img.bytesPerLine, r.x, y);
    var after := Memcpy(before, at, img.bits, from, r.width * BytesPerPixel);
    assert Within(Partial(rg, i, y + 1), img.width, img.height) by {
      assert Within([RowsDone(r, y + 1)], img.width, img.height);
    }
    forall k | 0 <= k < |after|
      ensures after[k] == Expected(img, rowPitch, mem, Partial(rg, i, y + 1), k)
    {
      if at <= k < at + r.width * BytesPerPixel {
        RowStepInside(img, rowPitch, mem, rg, i, y, k, at, from);
      } else {
        RowStepOutside(img, rowPitch, mem, rg, i, y, k, at);
      }
    }
  }

  /** Before any row of rectangle i is copied, the partial region is the first i rectangles. */
  lemma NoRowsYet(img: Image, rowPitch: nat, mem: seq<byte>, rg: Region, i: nat)
    requires img.WellFormed() && Within(rg, img.width, img.height) && i < |rg| && rg[i].height > 0
    ensures Within(Partial(rg, i, rg[i].y), img.width, img.height) && Within(rg[..i], img.width, img.height)
    ensures forall k :: 0 <= k < |mem| ==>
              Expected(img, rowPitch, mem, rg[..i], k) == Expected(img, rowPitch, mem, Partial(rg, i, rg[i].y), k)
  {
    var r := rg[i];
    assert 0 <= r.x && r.x + r.width <= img.width && 0 <= r.y && r.y + r.height <= img.height;
    assert Within([RowsDone(r, r.y)], img.width, img.height);
    forall k | 0 <= k < |mem| && rowPitch > 0
      ensures Expected(img, rowPitch, mem, rg[..i], k) == Expected(img, rowPitch, mem, Partial(rg, i, r.y), k)
    {
      SingleCovers(RowsDone(r, r.y), (k % rowPitch) / BytesPerPixel, k / rowPitch);
    }
  }

  /**
   * The inner loop of writeLinearImage for rectangle i (vulkanwindow.cpp:833-837): its rows are
   * copied one by one, which turns the bytes expected for the first i rectangles into those
   * expected for the first i + 1.
   */
  method CopyRect(img: Image, rowPitch: nat, mem: seq<byte>, rg: Region, i: nat, before: seq<byte>)
    returns (out: seq<byte>)
    requires Fits(img, rowPitch, |mem|) && Valid(rg) && Within(rg, img.width, img.height) && i < |rg|
    requires Within(rg[..i], img.width, img.height) && |before| == |mem|
    requires forall k :: 0 <= k < |before| ==> before[k] == Expected(img, rowPitch, mem, rg[..i], k)
    ensures |out| == |mem| && Within(rg[..i + 1], img.width, img.height)
    ensures forall k :: 0 <= k < |out| ==> out[k] == Expected(img, rowPitch, mem, rg[..i + 1], k)
  {
    var r := rg[i];
    NoRowsYet(img, rowPitch, mem, rg, i);
    out := before;
    var y: nat := r.y;
    while y < r.y + r.height
      invariant r.y <= y <= r.y + r.height && |out| == |mem|
      invariant Within(Partial(rg, i, y), img.width, img.height)
      invariant forall k :: 0 <= k < |out| ==> out[k] == Expected(img, rowPitch, mem, Partial(rg, i, y), k)
    {
      CopyRow(img, rowPitch, mem, rg, i, y, out);
      out := Memcpy(out, PixelOffset(rowPitch, r.x, y), img.bits, PixelOffset(img.bytesPerLine, r.x, y),
                    r.width * BytesPerPixel);
      y := y + 1;
    }
    assert RowsDone(r, y) == r;
    assert Partial(rg, i, y) == rg[..i + 1];
  }

  /**
   * writeLinearImage, vulkanwindow.cpp:810-842, from the mapping on: when vkMapMemory fails
   * nothing is written and the result is false; otherwise every byte of a region pixel takes
   * the source byte of the same scanline and column, and every other byte keeps its value.
   */
  method WriteLinearImage(img: Image, rowPitch: nat, mapOk: bool, mem: seq<byte>, rg: Region)
    returns (ok: bool, out: seq<byte>)
    requires Fits(img, rowPitch, |mem|) && Valid(rg) && Within(rg, img.width, img.height)
    ensures ok == mapOk && |out| == |mem|
    ensures !ok ==> out == mem
    ensures ok ==> forall k :: 0 <= k < |out| ==> out[k] == Expected(img, rowPitch, mem, rg, k)
  {
    if !mapOk {
      return false, mem;
    }
    out := mem;
    var i := 0;
    while i < |rg|
      invariant 0 <= i <= |rg| && |out| == |mem|
      invariant Within(rg[..i], img.width, img.height)
      invariant forall k :: 0 <= k < |out| ==> out[k] == Expected(img, rowPitch, mem, rg[..i], k)
    {
      out := CopyRect(img, rowPitch, mem, rg, i, out);
      i := i + 1;
    }
    assert rg[..i] == rg;
    ok := true;
  }
}
