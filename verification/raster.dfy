/** The CPU-side raster the scene is rendered into (a QImage) and the QSize it is measured with. */
module Raster {

  newtype byte = b: int | 0 <= b < 256

  /** Format_ARGB32_Premultiplied: four bytes per pixel. */
  const BytesPerPixel: nat := 4

  /** QSize. */
  datatype QSize = QSize(width: int, height: int)

  /** QSize(): the invalid size (-1, -1), used for "no texture pool". */
  const NullSize := QSize(-1, -1)

  /** A QImage: scanline y starts at byte y * bytesPerLine of bits. */
  datatype Image = Image(width: nat, height: nat, bytesPerLine: nat, bits: seq<byte>)
  {
    /** QImage::isNull(): an image without pixels. */
    predicate IsNull()
    {
      width == 0 || height == 0
    }

    function Size(): QSize
    {
      QSize(width, height)
    }

    /** Every scanline holds width pixels and lies inside bits. */
    predicate WellFormed()
    {
      BytesPerPixel * width <= bytesPerLine && height * bytesPerLine <= |bits|
    }
  }
}
