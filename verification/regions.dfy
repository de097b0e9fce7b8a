/**
 * QRegion as the renderer uses it: a list of rectangles (what `for (const QRect &r : region)`
 * iterates over) whose meaning is the set of pixels they cover.
 */
module Regions {

  /** QRect: top-left corner and extent in pixels. */
  datatype Rect = Rect(x: int, y: int, width: int, height: int)

  predicate RectContains(r: Rect, px: int, py: int)
  {
    r.x <= px < r.x + r.width && r.y <= py < r.y + r.height
  }

  /** The rectangles of a QRegion, in iteration order. */
  type Region = seq<Rect>

  /** QRegion(): the empty region. */
  const Empty: Region := []

  /** A QRegion never holds an empty rectangle. */
  predicate Valid(rg: Region)
  {
    forall i :: 0 <= i < |rg| ==> rg[i].width > 0 && rg[i].height > 0
  }

  /** Pixel (px, py) belongs to the region. */
  predicate Covers(rg: Region, px: int, py: int)
  {
    exists i :: 0 <= i < |rg| && RectContains(rg[i], px, py)
  }

  /** QRegion::isEmpty(): the region has no rectangles. */
  predicate IsEmpty(rg: Region)
  {
    |rg| == 0
  }

  /** Every rectangle lies inside a w x h image. */
  predicate Within(rg: Region, w: int, h: int)
  {
    forall i :: 0 <= i < |rg| ==>
      0 <= rg[i].x && rg[i].x + rg[i].width <= w && 0 <= rg[i].y && rg[i].y + rg[i].height <= h
  }

  /** For a well-formed region, having no rectangles and covering no pixel are the same thing. */
  lemma IsEmptyIffNoPixels(rg: Region)
    requires Valid(rg)
    ensures IsEmpty(rg) <==> forall px, py :: !Covers(rg, px, py)
  {
    if !IsEmpty(rg) {
      assert RectContains(rg[0], rg[0].x, rg[0].y);
      assert Covers(rg, rg[0].x, rg[0].y);
    }
  }

  /** A region inside a w x h image covers only pixels of that image. */
  lemma CoversWithin(rg: Region, w: int, h: int, px: int, py: int)
    requires Within(rg, w, h) && Covers(rg, px, py)
    ensures 0 <= px < w && 0 <= py < h
  {
    var i :| 0 <= i < |rg| && RectContains(rg[i], px, py);
  }

  /** QRegion::operator+=: the union of two regions. */
  function Union(a: Region, b: Region): (r: Region)
    ensures Valid(a) && Valid(b) ==> Valid(r)
    ensures forall w, h :: Within(a, w, h) && Within(b, w, h) ==> Within(r, w, h)
    ensures forall px, py :: Covers(r, px, py) <==> Covers(a, px, py) || Covers(b, px, py)
    ensures IsEmpty(r) <==> IsEmpty(a) && IsEmpty(b)
  {
    var r := a + b;
    assert forall px, py :: Covers(a, px, py) ==> Covers(r, px, py) by {
      forall px, py | Covers(a, px, py) ensures Covers(r, px, py) {
        var i :| 0 <= i < |a| && RectContains(a[i], px, py);
        assert r[i] == a[i];
      }
    }
    assert forall px, py :: Covers(b, px, py) ==> Covers(r, px, py) by {
      forall px, py | Covers(b, px, py) ensures Covers(r, px, py) {
        var i :| 0 <= i < |b| && RectContains(b[i], px, py);
        assert r[|a| + i] == b[i];
      }
    }
    assert forall px, py :: Covers(r, px, py) ==> Covers(a, px, py) || Covers(b, px, py) by {
      forall px, py | Covers(r, px, py) ensures Covers(a, px, py) || Covers(b, px, py) {
        var i :| 0 <= i < |r| && RectContains(r[i], px, py);
        if i < |a| {
          assert r[i] == a[i];
        } else {
          assert r[i] == b[i - |a|];
        }
      }
    }
    r
  }

  /** QRegion(QRect(0, 0, w, h)): the whole of a w x h image. */
  function Full(w: int, h: int): (r: Region)
    ensures Valid(r) && Within(r, w, h)
    ensures forall px, py :: Covers(r, px, py) <==> 0 <= px < w && 0 <= py < h
  {
    if w > 0 && h > 0 then
      SingleRectCovers(Rect(0, 0, w, h));
      [Rect(0, 0, w, h)]
    else []
  }

  /** A region of one rectangle covers exactly that rectangle's pixels. */
  lemma SingleRectCovers(r: Rect)
    ensures forall px, py :: Covers([r], px, py) <==> RectContains(r, px, py)
  {
    forall px, py
      ensures Covers([r], px, py) <==> RectContains(r, px, py)
    {
      if RectContains(r, px, py) {
        assert [r][0] == r;
      }
    }
  }
}
