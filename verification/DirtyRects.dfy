/** The map of dirty 16x16 cells and its bounding box against the rectangles recorded (src/dirty_rects.cpp). */
module DirtyRects {
  import opened Division

  datatype Rect = Rect(x: int, y: int, w: int, h: int)

  function Floor16(v: int): int {
    v / 16
  }

  /** Division by 16 rounding up, as the code does it: fill the low four bits, add one, shift. */
  function Ceil16(v: int): (c: int)
    ensures 16 * (c - 1) < v <= 16 * c
  {
    (if v % 16 != 0 then v - v % 16 + 15 + 1 else v) / 16
  }

  /** The cells a span of pixels is spread over. */
  predicate Spans(start: int, length: int, cell: int) {
    Floor16(start) <= cell < Ceil16(start + length)
  }

  predicate Touches(r: Rect, cx: int, cy: int) {
    Spans(r.x, r.w, cx) && Spans(r.y, r.h, cy)
  }

  predicate HasPixel(r: Rect, px: int, py: int) {
    r.x <= px < r.x + r.w && r.y <= py < r.y + r.h
  }

  predicate InCell(px: int, py: int, cx: int, cy: int) {
    px / 16 == cx && py / 16 == cy
  }

  /** A rectangle of positive size touches exactly the cells it shares a pixel with. */
  lemma TouchesIffSharesPixel(r: Rect, cx: int, cy: int)
    requires 0 < r.w && 0 < r.h
    ensures Touches(r, cx, cy) <==> exists px, py :: HasPixel(r, px, py) && InCell(px, py, cx, cy)
  {
    if Touches(r, cx, cy) {
      var px := if r.x < 16 * cx then 16 * cx else r.x;
      var py := if r.y < 16 * cy then 16 * cy else r.y;
      assert HasPixel(r, px, py) && InCell(px, py, cx, cy);
    }
  }

  /** A span without pixels marks nothing exactly when its start is far enough from the cell border. */
  lemma EmptySpan(start: int, length: int)
    requires length <= 0
    ensures (forall cell :: !Spans(start, length, cell)) <==> start % 16 + length <= 0
  {
    if start % 16 + length > 0 {
      assert Spans(start, length, Floor16(start));
    }
  }

  /** Some recorded rectangle touches the cell. */
  predicate Touched(rects: seq<Rect>, cx: int, cy: int) {
    exists i :: 0 <= i < |rects| && Touches(rects[i], cx, cy)
  }

  lemma TouchedAppend(rects: seq<Rect>, r: Rect, cx: int, cy: int)
    ensures Touched(rects + [r], cx, cy) <==> Touched(rects, cx, cy) || Touches(r, cx, cy)
  {
    var all := rects + [r];
    if Touched(rects, cx, cy) {
      var i :| 0 <= i < |rects| && Touches(rects[i], cx, cy);
      assert all[i] == rects[i];
    }
    if Touches(r, cx, cy) {
      assert all[|rects|] == r;
    }
  }

  /** Row-major position of a cell. */
  function Index(cx: int, cy: int, width: int): int {
    cy * width + cx
  }

  predicate OnMap(cx: int, cy: int, width: int, height: int) {
    0 <= cx < width && 0 <= cy < height
  }

  lemma IndexInRange(cx: int, cy: int, width: int, height: int)
    requires OnMap(cx, cy, width, height)
    ensures 0 <= Index(cx, cy, width) < width * height
  {
    MulMonotonic(0, cy, width);
    MulMonotonic(cy + 1, height, width);
    assert (cy + 1) * width == cy * width + width;
    assert height * width == width * height;
  }

  lemma IndexUnique(cx: int, cy: int, dx: int, dy: int, width: int, height: int)
    requires OnMap(cx, cy, width, height) && OnMap(dx, dy, width, height)
    ensures Index(cx, cy, width) == Index(dx, dy, width) <==> cx == dx && cy == dy
  {
    Quotient(Index(cx, cy, width), width, cy, cx);
    Quotient(Index(dx, dy, width), width, dy, dx);
  }

  /** The first and the last column of a rectangle, or row. */
  function First(r: Rect, rows: bool): int {
    if rows then r.y else r.x
  }

  function Last(r: Rect, rows: bool): int {
    if rows then r.y + r.h - 1 else r.x + r.w - 1
  }

  /** The start of a cell. */
  function Aligned(v: int): (a: int)
    ensures a <= v < a + 16 && a % 16 == 0
  {
    Quotient(v - v % 16, 16, v / 16, 0);
    v - v % 16
  }

  lemma AlignedIsLast(m: int, v: int)
    requires m % 16 == 0 && m <= v
    ensures m <= Aligned(v)
  {
    var p, q := m / 16, Aligned(v) / 16;
    assert m == 16 * p && Aligned(v) == 16 * q;
  }

  /** Where the box begins after the rectangles, in an area of this size. */
  function BoxStart(rects: seq<Rect>, size: int, rows: bool): int {
    if rects == [] then size
    else
      var m, v := BoxStart(rects[..|rects| - 1], size, rows), First(rects[|rects| - 1], rows);
      if v < m then Aligned(v) else m
  }

  /** Where it ends. */
  function BoxEnd(rects: seq<Rect>, rows: bool): int {
    if rects == [] then 0
    else
      var m, v := BoxEnd(rects[..|rects| - 1], rows), Last(rects[|rects| - 1], rows);
      if v > m then v else m
  }

  /** The box begins with the first cell that a rectangle begins in, left of the end of the area. */
  lemma {:induction false} BoxStartMeaning(rects: seq<Rect>, size: int, rows: bool)
    ensures var m := BoxStart(rects, size, rows);
            && (m == size ||
                exists i :: 0 <= i < |rects| && First(rects[i], rows) < size && m == Aligned(First(rects[i], rows)))
            && m <= size
            && forall i | 0 <= i < |rects| && First(rects[i], rows) < size :: m <= Aligned(First(rects[i], rows))
  {
    if rects != [] {
      var init := rects[..|rects| - 1];
      BoxStartMeaning(init, size, rows);
      var m := BoxStart(init, size, rows);
      if m != size {
        var i :| 0 <= i < |init| && First(init[i], rows) < size && m == Aligned(First(init[i], rows));
        assert rects[i] == init[i];
        if m <= First(rects[|init|], rows) {
          AlignedIsLast(m, First(rects[|init|], rows));
        }
      }
      assert forall i | 0 <= i < |init| :: rects[i] == init[i];
    }
  }

  /** It ends with the last pixel of a rectangle, or at 0. */
  lemma {:induction false} BoxEndMeaning(rects: seq<Rect>, rows: bool)
    ensures var m := BoxEnd(rects, rows);
            && (m == 0 || exists i :: 0 <= i < |rects| && m == Last(rects[i], rows))
            && 0 <= m && forall i | 0 <= i < |rects| :: Last(rects[i], rows) <= m
  {
    if rects != [] {
      var init := rects[..|rects| - 1];
      BoxEndMeaning(init, rows);
      var m := BoxEnd(init, rows);
      if m != 0 {
        var i :| 0 <= i < |init| && m == Last(init[i], rows);
        assert rects[i] == init[i];
      }
      assert forall i | 0 <= i < |init| :: rects[i] == init[i];
    }
  }

  /** Some rectangle ends at or behind the column, or it is not right of column 0. */
  ghost predicate Reached(rects: seq<Rect>, column: int) {
    column <= 0 || exists i :: 0 <= i < |rects| && column <= Last(rects[i], false)
  }

  /** The ends of the box are tight: the last column and the last row of it hold a pixel of some rectangle. */
  lemma BoxEndIsPixel(rects: seq<Rect>)
    requires forall i | 0 <= i < |rects| :: 0 < rects[i].w && 0 < rects[i].h
    ensures BoxEnd(rects, false) > 0 ==> exists i, y :: 0 <= i < |rects| && HasPixel(rects[i], BoxEnd(rects, false), y)
    ensures BoxEnd(rects, true) > 0 ==> exists i, x :: 0 <= i < |rects| && HasPixel(rects[i], x, BoxEnd(rects, true))
  {
    BoxEndMeaning(rects, false);
    BoxEndMeaning(rects, true);
    if BoxEnd(rects, false) > 0 {
      var i :| 0 <= i < |rects| && BoxEnd(rects, false) == Last(rects[i], false);
      assert HasPixel(rects[i], BoxEnd(rects, false), rects[i].y);
    }
    if BoxEnd(rects, true) > 0 {
      var i :| 0 <= i < |rects| && BoxEnd(rects, true) == Last(rects[i], true);
      assert HasPixel(rects[i], rects[i].x, BoxEnd(rects, true));
    }
  }

  lemma ReachedIff(rects: seq<Rect>, column: int)
    ensures Reached(rects, column) <==> column <= BoxEnd(rects, false)
  {
    BoxEndMeaning(rects, false);
  }

  /** When the box is not empty. */
  lemma DirtyIff(rects: seq<Rect>, width: int)
    requires 0 < width
    ensures BoxStart(rects, width, false) <= BoxEnd(rects, false) <==>
              || (exists i :: 0 <= i < |rects| && rects[i].x < width && Reached(rects, Aligned(rects[i].x)))
              || Reached(rects, width)
    ensures (forall i | 0 <= i < |rects| :: 0 < rects[i].w) ==>
            (BoxStart(rects, width, false) <= BoxEnd(rects, false) <==> rects != [])
  {
    var left := BoxStart(rects, width, false);
    BoxStartMeaning(rects, width, false);
    ReachedIff(rects, left);
    ReachedIff(rects, width);
    if left < width {
      var i :| 0 <= i < |rects| && First(rects[i], false) < width && left == Aligned(First(rects[i], false));
      assert rects[i].x < width && Aligned(rects[i].x) == left;
    }
    forall i | 0 <= i < |rects| && rects[i].x < width && Reached(rects, Aligned(rects[i].x))
      ensures left <= BoxEnd(rects, false) {
      ReachedIff(rects, Aligned(rects[i].x));
      assert left <= Aligned(First(rects[i], false));
    }
    if rects != [] && 0 < rects[0].w {
      BoxEndMeaning(rects, false);
      assert rects[0].x <= Last(rects[0], false) <= BoxEnd(rects, false);
      assert First(rects[0], false) < width ==> left <= Aligned(First(rects[0], false));
    }
  }

  class DirtyMap {
    var dirtyMarker: array<int>
    var dirtyW: int
    var dirtyH: int
    var areaW: int
    var areaH: int
    var minDirtX: int
    var minDirtY: int
    var maxDirtX: int
    var maxDirtY: int

    /** The rectangles recorded since the last clear; a resize counts as one over the whole area. */
    ghost var rects: seq<Rect>

    ghost predicate Shape()
      reads this, dirtyMarker
    {
      && 0 < areaW && 0 < areaH && dirtyW == Ceil16(areaW) && dirtyH == Ceil16(areaH)
      && dirtyMarker.Length == dirtyW * dirtyH
    }

    /** The cell is marked. */
    ghost predicate Marked(cx: int, cy: int)
      requires Shape() && OnMap(cx, cy, dirtyW, dirtyH)
      reads this, dirtyMarker
    {
      IndexInRange(cx, cy, dirtyW, dirtyH);
      dirtyMarker[Index(cx, cy, dirtyW)] == 1
    }

    /** The marked cells are those of the history. */
    ghost predicate MapAgrees()
      requires Shape()
      reads this, dirtyMarker
    {
      forall cx, cy | OnMap(cx, cy, dirtyW, dirtyH) :: Marked(cx, cy) <==> Touched(rects, cx, cy)
    }

    /**
     * The bounding box is as tight as the code makes it: BoxStartMeaning and BoxEndMeaning tell how
     * tight that is.
     */
    ghost predicate BoxAgrees()
      reads this
    {
      && minDirtX == BoxStart(rects, areaW, false) && maxDirtX == BoxEnd(rects, false)
      && minDirtY == BoxStart(rects, areaH, true) && maxDirtY == BoxEnd(rects, true)
    }

    ghost predicate Valid()
      reads this, dirtyMarker
    {
      Shape() && MapAgrees() && BoxAgrees()
    }

    constructor (width: int, height: int)
      requires 0 < width && 0 < height
      ensures Valid() && rects == [Rect(0, 0, width, height)]
    {
      dirtyMarker := new int[0];
      new;
      ResizeDirty(width, height);
    }

    /** resizeDirty: everything is to be refreshed. */
    method ResizeDirty(width: int, height: int)
      requires 0 < width && 0 < height
      modifies this
      ensures Valid() && areaW == width && areaH == height && fresh(dirtyMarker)
      ensures rects == [Rect(0, 0, width, height)]
    {
      areaW, areaH := width, height;
      dirtyW := CellsFor(width);
      dirtyH := CellsFor(height);
      SizeIsNatural(dirtyW, dirtyH);
      dirtyMarker := new int[dirtyW * dirtyH](_ => 1);
      minDirtX, minDirtY, maxDirtX, maxDirtY := 0, 0, areaW - 1, areaH - 1;
      rects := [Rect(0, 0, width, height)];
      assert rects[..0] == [];
      forall cx, cy | OnMap(cx, cy, dirtyW, dirtyH) ensures Marked(cx, cy) && Touched(rects, cx, cy) {
        IndexInRange(cx, cy, dirtyW, dirtyH);
        WholeArea(width, height, cx, cy);
      }
    }

    /** clearDirtyRects. */
    method ClearDirtyRects()
      requires Valid()
      modifies this, dirtyMarker
      ensures Valid() && rects == [] && areaW == old(areaW) && areaH == old(areaH) && dirtyMarker == old(dirtyMarker)
    {
      forall i | 0 <= i < dirtyMarker.Length {
        dirtyMarker[i] := 0;
      }
      minDirtX, minDirtY, maxDirtX, maxDirtY := areaW, areaH, 0, 0;
      rects := [];
      forall cx, cy | OnMap(cx, cy, dirtyW, dirtyH) ensures !Marked(cx, cy) {
        IndexInRange(cx, cy, dirtyW, dirtyH);
      }
    }

    /** The part of setDirtyRect that keeps the bounding box. */
    method GrowBox(x: int, y: int, w: int, h: int)
      modifies this`minDirtX, this`minDirtY, this`maxDirtX, this`maxDirtY
      ensures minDirtX == (if x < old(minDirtX) then Aligned(x) else old(minDirtX))
      ensures minDirtY == (if y < old(minDirtY) then Aligned(y) else old(minDirtY))
      ensures maxDirtX == (if x + w - 1 > old(maxDirtX) then x + w - 1 else old(maxDirtX))
      ensures maxDirtY == (if y + h - 1 > old(maxDirtY) then y + h - 1 else old(maxDirtY))
    {
      if x < minDirtX {
        minDirtX := x - x % 16;
      }
      if y < minDirtY {
        minDirtY := y - y % 16;
      }
      if x + w - 1 > maxDirtX {
        maxDirtX := x + w - 1;
      }
      if y + h - 1 > maxDirtY {
        maxDirtY := y + h - 1;
      }
    }

    /** The two loops of setDirtyRect. */
    method MarkCells(x1: int, y1: int, x2: int, y2: int)
      requires Shape()
      modifies dirtyMarker
      ensures Shape()
      ensures forall cx, cy | OnMap(cx, cy, dirtyW, dirtyH) ::
                Marked(cx, cy) <==> old(Marked(cx, cy)) || (x1 <= cx < x2 && y1 <= cy < y2)
    {
      var y := y1;
      while y < y2
        invariant y1 <= y && (y <= y2 || y == y1)
        invariant forall cx, cy | OnMap(cx, cy, dirtyW, dirtyH) ::
                    Marked(cx, cy) <==> old(Marked(cx, cy)) || (x1 <= cx < x2 && y1 <= cy < y)
      {
        MarkRow(x1, x2, y);
        y := y + 1;
      }
    }

    method MarkRow(x1: int, x2: int, y: int)
      requires Shape()
      modifies dirtyMarker
      ensures Shape()
      ensures forall cx, cy | OnMap(cx, cy, dirtyW, dirtyH) ::
                Marked(cx, cy) <==> old(Marked(cx, cy)) || (x1 <= cx < x2 && cy == y)
    {
      var x := x1;
      while x < x2
        invariant x1 <= x && (x <= x2 || x == x1)
        invariant forall cx, cy | OnMap(cx, cy, dirtyW, dirtyH) ::
                    Marked(cx, cy) <==> old(Marked(cx, cy)) || (x1 <= cx < x && cy == y)
      {
        if x >= 0 && x < dirtyW && y >= 0 && y < dirtyH {
          MarkCell(x, y);
        }
        x := x + 1;
      }
    }

    method MarkCell(x: int, y: int)
      requires Shape() && OnMap(x, y, dirtyW, dirtyH)
      modifies dirtyMarker
      ensures Shape()
      ensures forall cx, cy | OnMap(cx, cy, dirtyW, dirtyH) ::
                Marked(cx, cy) <==> old(Marked(cx, cy)) || (cx == x && cy == y)
    {
      IndexInRange(x, y, dirtyW, dirtyH);
      dirtyMarker[y * dirtyW + x] := 1;
      forall cx, cy | OnMap(cx, cy, dirtyW, dirtyH)
        ensures Marked(cx, cy) <==> old(Marked(cx, cy)) || (cx == x && cy == y)
      {
        IndexInRange(cx, cy, dirtyW, dirtyH);
        IndexUnique(cx, cy, x, y, dirtyW, dirtyH);
      }
    }

    /** setDirtyRect: the rectangle joins the history, whatever its size and wherever it lies. */
    method SetDirtyRect(x: int, y: int, w: int, h: int)
      requires Valid()
      modifies this, dirtyMarker
      ensures Valid() && rects == old(rects) + [Rect(x, y, w, h)]
      ensures areaW == old(areaW) && areaH == old(areaH) && dirtyMarker == old(dirtyMarker)
    {
      GrowBox(x, y, w, h);
      MarkRect(x, y, w, h);
      ghost var r := Rect(x, y, w, h);
      assert (rects + [r])[..|rects|] == rects;
      rects := rects + [r];
    }

    /** The part of setDirtyRect that keeps the map. */
    method MarkRect(x: int, y: int, w: int, h: int)
      requires Shape() && MapAgrees()
      modifies dirtyMarker
      ensures Shape()
      ensures forall cx, cy | OnMap(cx, cy, dirtyW, dirtyH) ::
                Marked(cx, cy) <==> Touched(rects + [Rect(x, y, w, h)], cx, cy)
    {
      var x2 := x + w;
      if x2 % 16 != 0 {
        x2 := x2 - x2 % 16 + 15 + 1;
      }
      x2 := x2 / 16;
      var y2 := y + h;
      if y2 % 16 != 0 {
        y2 := y2 - y2 % 16 + 15 + 1;
      }
      y2 := y2 / 16;
      MarkCells(x / 16, y / 16, x2, y2);
      ghost var r := Rect(x, y, w, h);
      forall cx, cy | OnMap(cx, cy, dirtyW, dirtyH) ensures Marked(cx, cy) <==> Touched(rects + [r], cx, cy) {
        TouchedAppend(rects, r, cx, cy);
      }
    }

    /** setDirtyLine: the bounding rectangle of the two end points. */
    method SetDirtyLine(x1: int, y1: int, x2: int, y2: int)
      requires Valid()
      modifies this, dirtyMarker
      ensures Valid() && |rects| == |old(rects)| + 1 && old(rects) <= rects && dirtyMarker == old(dirtyMarker)
      ensures var r := rects[|rects| - 1];
              && HasPixel(r, x1, y1) && HasPixel(r, x2, y2)
              && (forall px, py :: HasPixel(r, px, py) ==>
                 (x1 <= px <= x2 || x2 <= px <= x1) && (y1 <= py <= y2 || y2 <= py <= y1))
    {
      var minX, maxX := if x1 <= x2 then x1 else x2, if x1 <= x2 then x2 else x1;
      var minY, maxY := if y1 <= y2 then y1 else y2, if y1 <= y2 then y2 else y1;
      SetDirtyRect(minX, minY, maxX - minX + 1, maxY - minY + 1);
    }

    /**
     * hasDirtyRect: some rectangle begins, by cells and left of the area's end, no further right than
     * some rectangle ends (or column 0), or some rectangle ends right of the area. With rectangles of
     * positive width this tells whether any was recorded.
     */
    method HasDirtyRect() returns (dirty: bool)
      requires Valid()
      ensures dirty <==>
                || (exists i :: 0 <= i < |rects| && rects[i].x < areaW && Reached(rects, Aligned(rects[i].x)))
                || Reached(rects, areaW)
      ensures (forall i | 0 <= i < |rects| :: 0 < rects[i].w) ==> (dirty <==> rects != [])
    {
      dirty := minDirtX <= maxDirtX;
      DirtyIff(rects, areaW);
    }

    /** Every pixel of every recorded rectangle lies in the bounding box. */
    lemma PixelsInBox(i: nat, px: int, py: int)
      requires Valid() && i < |rects| && HasPixel(rects[i], px, py)
      ensures minDirtX <= px <= maxDirtX && minDirtY <= py <= maxDirtY
    {
      BoxStartMeaning(rects, areaW, false);
      BoxStartMeaning(rects, areaH, true);
      BoxEndMeaning(rects, false);
      BoxEndMeaning(rects, true);
      assert First(rects[i], false) == rects[i].x && First(rects[i], true) == rects[i].y;
      assert Last(rects[i], false) <= maxDirtX && Last(rects[i], true) <= maxDirtY;
    }

    /**
     * The map against the pixels: with rectangles of positive size, a cell of the map is marked
     * exactly when some recorded rectangle has a pixel in it.
     */
    lemma MarkedIffPixel(cx: int, cy: int)
      requires Valid() && OnMap(cx, cy, dirtyW, dirtyH)
      requires forall i | 0 <= i < |rects| :: 0 < rects[i].w && 0 < rects[i].h
      ensures Marked(cx, cy)
              <==> exists i, px, py :: 0 <= i < |rects| && HasPixel(rects[i], px, py) && InCell(px, py, cx, cy)
    {
      if Touched(rects, cx, cy) {
        var i :| 0 <= i < |rects| && Touches(rects[i], cx, cy);
        TouchesIffSharesPixel(rects[i], cx, cy);
      }
      if exists i, px, py :: 0 <= i < |rects| && HasPixel(rects[i], px, py) && InCell(px, py, cx, cy) {
        var i, px, py :| 0 <= i < |rects| && HasPixel(rects[i], px, py) && InCell(px, py, cx, cy);
        TouchesIffSharesPixel(rects[i], cx, cy);
      }
    }
  }

  /** The number of cells that cover a length. */
  method CellsFor(length: int) returns (cells: int)
    ensures cells == Ceil16(length)
  {
    cells := length / 16;
    if length % 16 != 0 {
      cells := cells + 1;
    }
  }

  lemma WholeArea(width: int, height: int, cx: int, cy: int)
    requires OnMap(cx, cy, Ceil16(width), Ceil16(height))
    ensures Touched([Rect(0, 0, width, height)], cx, cy)
  {
    var rects := [Rect(0, 0, width, height)];
    assert Touches(rects[0], cx, cy);
  }

  lemma SizeIsNatural(w: int, h: int)
    requires 0 <= w && 0 <= h
    ensures 0 <= w * h
  {
  }
}
