/** Placing a drawing on a page: scale, alignment slack and the transformation, over exact numbers. */
module PageLayout {
  /** A drawing's bounding box, with a positive width and height. */
  datatype World = World(xMin: real, yMin: real, width: real, height: real)

  /** Where drawing is allowed: the page less its margins. */
  datatype Drawable = Drawable(x: real, y: real, width: real, height: real)

  /** Page size, and margins at the top, left, bottom and right. */
  datatype Page = Page(width: real, height: real, top: real, left: real, bottom: real, right: real)

  /** x' = xx * x + x0, y' = yy * y + y0. */
  datatype Matrix = Matrix(xx: real, yy: real, x0: real, y0: real)

  function Min(a: real, b: real): real {
    if a <= b then a else b
  }

  function Max(a: real, b: real): real {
    if a >= b then a else b
  }

  function DrawableOf(p: Page): Drawable {
    Drawable(p.left, p.top, p.width - p.left - p.right, p.height - p.top - p.bottom)
  }

  function MapX(m: Matrix, x: real): real {
    m.xx * x + m.x0
  }

  function MapY(m: Matrix, y: real): real {
    m.yy * y + m.y0
  }

  predicate Inside(d: Drawable, x: real, y: real) {
    d.x <= x <= d.x + d.width && d.y <= y <= d.y + d.height
  }

  /** A point of the page that keeps its distance to all four edges; the origin is the top left corner. */
  predicate ClearOfMargins(p: Page, x: real, y: real) {
    x >= p.left && p.width - x >= p.right && y >= p.top && p.height - y >= p.bottom
  }

  lemma ClearIsInside(p: Page, x: real, y: real)
    ensures ClearOfMargins(p, x, y) <==> Inside(DrawableOf(p), x, y)
  {
  }

  predicate InWorld(w: World, x: real, y: real) {
    w.xMin <= x <= w.xMin + w.width && w.yMin <= y <= w.yMin + w.height
  }

  function Scale(w: World, d: Drawable): real
    requires w.width > 0.0 && w.height > 0.0
  {
    Min(d.width / w.width, d.height / w.height)
  }

  // ---- what the placement means

  /** The matrix is one that LayOut may return, for alignments a and b between 0 and 1. */
  predicate Placed(m: Matrix, w: World, d: Drawable, a: real, b: real)
    requires w.width > 0.0 && w.height > 0.0
  {
    && 0.0 <= a <= 1.0 && 0.0 <= b <= 1.0 && m.xx == Scale(w, d) == -m.yy
    && MapX(m, w.xMin) == d.x + a * (d.width - w.width * m.xx)
    && MapY(m, w.yMin + w.height) == d.y + b * (d.height - w.height * m.xx)
  }

  lemma QuotientScales(x: real, w: real, s: real)
    requires w > 0.0
    ensures s <= x / w <==> w * s <= x
    ensures s == x / w <==> w * s == x
  {
    var q := x / w;
    assert w * q == x;
    if s <= q {
      MulMono(w, s, q);
    } else {
      MulMono(w, q, s);
      assert w * (s - q) > 0.0 by {
        MulPos(w, s - q);
      }
    }
  }

  lemma MulMono(w: real, a: real, b: real)
    requires w >= 0.0 && a <= b
    ensures w * a <= w * b
  {
    assert w * (b - a) >= 0.0;
  }

  lemma MulPos(a: real, b: real)
    requires a > 0.0 && b > 0.0
    ensures a * b > 0.0
  {
  }

  /** The scaled drawing just fits: it is no larger than the drawable area, and as large one way. */
  lemma ScaleFits(w: World, d: Drawable)
    requires w.width > 0.0 && w.height > 0.0
    ensures var s := Scale(w, d);
      && w.width * s <= d.width && w.height * s <= d.height && (w.width * s == d.width || w.height * s == d.height)
  {
    var s := Scale(w, d);
    QuotientScales(d.width, w.width, s);
    QuotientScales(d.height, w.height, s);
  }

  /** The scale is not negative exactly when the drawable area has a size. */
  lemma ScaleSign(w: World, d: Drawable)
    requires w.width > 0.0 && w.height > 0.0
    ensures Scale(w, d) >= 0.0 <==> d.width >= 0.0 && d.height >= 0.0
  {
    QuotientScales(d.width, w.width, 0.0);
    QuotientScales(d.height, w.height, 0.0);
  }

  /** A point a part of the way through an interval, scaled. */
  lemma Within(u: real, length: real, s: real, room: real, a: real, lo: real)
    requires 0.0 <= u <= length && s >= 0.0 && length * s <= room && 0.0 <= a <= 1.0
    ensures lo <= lo + a * (room - length * s) + u * s <= lo + room
  {
    var slack := room - length * s;
    MulMono(s, 0.0, u);
    MulMono(s, u, length);
    MulMono(slack, 0.0, a);
    MulMono(slack, a, 1.0);
    assert u * s == s * u && length * s == s * length && a * slack == slack * a;
  }

  lemma PlacedX(m: Matrix, w: World, d: Drawable, a: real, b: real, x: real)
    requires w.width > 0.0 && w.height > 0.0 && Placed(m, w, d, a, b)
    ensures MapX(m, x) == d.x + a * (d.width - w.width * m.xx) + (x - w.xMin) * m.xx
  {
    assert m.xx * x == m.xx * w.xMin + (x - w.xMin) * m.xx;
  }

  lemma PlacedY(m: Matrix, w: World, d: Drawable, a: real, b: real, y: real)
    requires w.width > 0.0 && w.height > 0.0 && Placed(m, w, d, a, b)
    ensures MapY(m, y) == d.y + b * (d.height - w.height * m.xx) + (w.yMin + w.height - y) * m.xx
  {
    var top := w.yMin + w.height;
    assert m.yy * y == m.yy * top + (top - y) * m.xx;
  }

  lemma InsideX(m: Matrix, w: World, d: Drawable, a: real, b: real, x: real)
    requires w.width > 0.0 && w.height > 0.0 && Placed(m, w, d, a, b)
    requires d.width >= 0.0 && d.height >= 0.0 && w.xMin <= x <= w.xMin + w.width
    ensures d.x <= MapX(m, x) <= d.x + d.width
  {
    ScaleFits(w, d);
    ScaleSign(w, d);
    PlacedX(m, w, d, a, b, x);
    Within(x - w.xMin, w.width, m.xx, d.width, a, d.x);
  }

  lemma InsideY(m: Matrix, w: World, d: Drawable, a: real, b: real, y: real)
    requires w.width > 0.0 && w.height > 0.0 && Placed(m, w, d, a, b)
    requires d.width >= 0.0 && d.height >= 0.0 && w.yMin <= y <= w.yMin + w.height
    ensures d.y <= MapY(m, y) <= d.y + d.height
  {
    ScaleFits(w, d);
    ScaleSign(w, d);
    PlacedY(m, w, d, a, b, y);
    Within(w.yMin + w.height - y, w.height, m.xx, d.height, b, d.y);
  }

  /** Every point of the drawing lands inside the drawable area if and only if the margins leave it a size
      that is not negative. */
  lemma InsideExactly(m: Matrix, w: World, d: Drawable, a: real, b: real)
    requires w.width > 0.0 && w.height > 0.0 && Placed(m, w, d, a, b)
    ensures (forall x, y :: InWorld(w, x, y) ==> Inside(d, MapX(m, x), MapY(m, y))) <==>
      d.width >= 0.0 && d.height >= 0.0
  {
    if d.width >= 0.0 && d.height >= 0.0 {
      forall x, y | InWorld(w, x, y)
        ensures Inside(d, MapX(m, x), MapY(m, y))
      {
        InsideX(m, w, d, a, b, x);
        InsideY(m, w, d, a, b, y);
      }
    } else {
      Corner(w);
      NothingInside(d, MapX(m, w.xMin), MapY(m, w.yMin));
    }
  }

  /** At the ends of the alignment scale the drawing touches the margins: left and right, top and bottom. */
  lemma AlignedEnds(m: Matrix, w: World, p: Page, a: real, b: real)
    requires w.width > 0.0 && w.height > 0.0 && Placed(m, w, DrawableOf(p), a, b)
    ensures a == 0.0 ==> MapX(m, w.xMin) == p.left
    ensures a == 1.0 ==> p.width - MapX(m, w.xMin + w.width) == p.right
    ensures b == 0.0 ==> MapY(m, w.yMin + w.height) == p.top
    ensures b == 1.0 ==> p.height - MapY(m, w.yMin) == p.bottom
  {
    var d := DrawableOf(p);
    PlacedX(m, w, d, a, b, w.xMin + w.width);
    PlacedY(m, w, d, a, b, w.yMin);
    EndShares(a, d.width - w.width * m.xx);
    EndShares(b, d.height - w.height * m.xx);
  }

  lemma EndShares(a: real, slack: real)
    ensures a == 0.0 ==> a * slack == 0.0
    ensures a == 1.0 ==> a * slack == slack
  {
  }

  /** An alignment outside the range counts as its nearer end. */
  lemma ClampedAlignment(a: real)
    ensures Min(1.0, Max(0.0, a)) == if a < 0.0 then 0.0 else if a > 1.0 then 1.0 else a
  {
  }

  const UNIT: World := World(0.0, 0.0, 1.0, 1.0)

  /** A page as wide as each of its side margins. */
  const NARROW: Page := Page(1.0, 1.0, 0.0, 1.0, 0.0, 1.0)

  /** On such a page a corner of the drawing lies outside the drawable area, however it is aligned. */
  lemma WideMargins(m: Matrix, a: real, b: real)
    requires Placed(m, UNIT, DrawableOf(NARROW), a, b)
    ensures InWorld(UNIT, 0.0, 0.0) && !Inside(DrawableOf(NARROW), MapX(m, 0.0), MapY(m, 0.0))
  {
    NothingInside(DrawableOf(NARROW), MapX(m, 0.0), MapY(m, 0.0));
  }

  lemma Corner(w: World)
    requires w.width > 0.0 && w.height > 0.0
    ensures InWorld(w, w.xMin, w.yMin) && InWorld(w, w.xMin + w.width, w.yMin + w.height)
  {
  }

  lemma NothingInside(d: Drawable, x: real, y: real)
    requires d.width < 0.0 || d.height < 0.0
    ensures !Inside(d, x, y)
  {
  }

  lemma Cancels(s: real, x: real, offset: real)
    ensures s * x + (-x * s + offset) == offset
  {
  }

  lemma PlacedBy(m: Matrix, w: World, d: Drawable, a: real, b: real)
    requires w.width > 0.0 && w.height > 0.0 && 0.0 <= a <= 1.0 && 0.0 <= b <= 1.0
    requires m.xx == Scale(w, d) && m.yy == -m.xx
    requires m.x0 == -w.xMin * m.xx + (d.x + a * (d.width - w.width * m.xx))
    requires m.y0 == -(w.yMin + w.height) * m.yy + (d.y + b * (d.height - w.height * m.xx))
    ensures Placed(m, w, d, a, b)
  {
    Cancels(m.xx, w.xMin, d.x + a * (d.width - w.width * m.xx));
    Cancels(m.yy, w.yMin + w.height, d.y + b * (d.height - w.height * m.xx));
  }

  /** The last part of export_layout_page. */
  method LayOut(w: World, p: Page, alignX: real, alignY: real) returns (m: Matrix)
    requires w.width > 0.0 && w.height > 0.0
    ensures Placed(m, w, DrawableOf(p), Min(1.0, Max(0.0, alignX)), Min(1.0, Max(0.0, alignY)))
    ensures (forall x, y :: InWorld(w, x, y) ==> ClearOfMargins(p, MapX(m, x), MapY(m, y))) <==>
      p.left + p.right <= p.width && p.top + p.bottom <= p.height
  {
    var d := Drawable(p.left, p.top, 0.0, 0.0);
    d := d.(width := p.width - p.left - p.right);
    d := d.(height := p.height - p.top - p.bottom);
    var s := Min(d.width / w.width, d.height / w.height);
    var slackX := Min(1.0, Max(0.0, alignX)) * (d.width - w.width * s);
    var slackY := Min(1.0, Max(0.0, alignY)) * (d.height - w.height * s);
    m := Matrix(s, -s, -w.xMin * s + d.x + slackX, (w.yMin + w.height) * s + d.y + slackY);
    PlacedBy(m, w, d, Min(1.0, Max(0.0, alignX)), Min(1.0, Max(0.0, alignY)));
    InsideExactly(m, w, d, Min(1.0, Max(0.0, alignX)), Min(1.0, Max(0.0, alignY)));
    ClearExactly(m, w, p);
  }

  lemma ClearExactly(m: Matrix, w: World, p: Page)
    ensures (forall x, y :: InWorld(w, x, y) ==> ClearOfMargins(p, MapX(m, x), MapY(m, y))) <==>
      forall x, y :: InWorld(w, x, y) ==> Inside(DrawableOf(p), MapX(m, x), MapY(m, y))
  {
    forall x, y
      ensures ClearOfMargins(p, MapX(m, x), MapY(m, y)) <==> Inside(DrawableOf(p), MapX(m, x), MapY(m, y))
    {
      ClearIsInside(p, MapX(m, x), MapY(m, y));
    }
  }
}
