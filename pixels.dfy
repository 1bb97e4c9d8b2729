/**
 * Decoded pixel planes and the placement metadata computed from them: the bounding
 * box of the alpha channel (`getchannel("A").getbbox()`), with the whole canvas as
 * the fallback when every pixel is fully transparent.
 */
module Pixels {
  import opened Wrappers

  /** One channel of a decoded image, row-major: `px[y][x]` is the value at column x, row y. */
  datatype Raster = Raster(width: nat, height: nat, px: seq<seq<int>>) {
    predicate Valid() {
      |px| == height && forall y :: 0 <= y < |px| ==> |px[y]| == width
    }
  }

  /** A well-formed channel: `height` rows of `width` values each. */
  type Image = r: Raster | r.Valid() witness Raster(0, 0, [])

  /** A rectangle `(left, top, right, bottom)`; right and bottom are exclusive. */
  datatype Box = Box(left: int, top: int, right: int, bottom: int)

  /** Pixel (x, y) exists in the rows and is not fully transparent. */
  predicate NonZero(rows: seq<seq<int>>, x: int, y: int) {
    0 <= y < |rows| && 0 <= x < |rows[y]| && rows[y][x] != 0
  }

  ghost predicate AllZero(rows: seq<seq<int>>) {
    forall x, y :: !NonZero(rows, x, y)
  }

  /** Every non-transparent pixel lies inside b. */
  ghost predicate Covers(rows: seq<seq<int>>, b: Box) {
    forall x, y :: NonZero(rows, x, y) ==> b.left <= x < b.right && b.top <= y < b.bottom
  }

  /** Column x holds a non-transparent pixel. */
  ghost predicate ColumnHit(rows: seq<seq<int>>, x: int) {
    exists y :: NonZero(rows, x, y)
  }

  /** Row y holds a non-transparent pixel. */
  ghost predicate RowHit(rows: seq<seq<int>>, y: int) {
    exists x :: NonZero(rows, x, y)
  }

  /** Each of b's four edges passes through a non-transparent pixel. */
  ghost predicate Tight(rows: seq<seq<int>>, b: Box) {
    ColumnHit(rows, b.left) && ColumnHit(rows, b.right - 1) && RowHit(rows, b.top) && RowHit(rows, b.bottom - 1)
  }

  /** The first and last non-zero column of one row, or None when the row is all zero. */
  function RowSpan(row: seq<int>): (r: Option<(nat, nat)>)
    ensures r.None? <==> forall x :: 0 <= x < |row| ==> row[x] == 0
    ensures r.Some? ==>
      && r.value.0 <= r.value.1 < |row|
      && row[r.value.0] != 0 && row[r.value.1] != 0
      && forall x :: 0 <= x < |row| && row[x] != 0 ==> r.value.0 <= x <= r.value.1
  {
    if |row| == 0 then None
    else
      var last := |row| - 1;
      assert forall x :: 0 <= x < last ==> row[..last][x] == row[x];
      match RowSpan(row[..last])
      case None => if row[last] != 0 then Some((last, last)) else None
      case Some(span) => Some((span.0, if row[last] != 0 then last else span.1))
  }

  /**
   * The tightest box around the non-zero values of `rows`, or None when there are none
   * (the `getbbox()` of one channel). Rows are scanned top to bottom.
   */
  function BBox(rows: seq<seq<int>>): (r: Option<Box>)
    ensures r.None? <==> AllZero(rows)
    ensures r.Some? ==> Covers(rows, r.value) && Tight(rows, r.value)
  {
    if |rows| == 0 then None
    else
      var y := |rows| - 1;
      var above := rows[..y];
      DropLastRow(rows, y);
      var prev := BBox(above);
      match RowSpan(rows[y])
      case None =>
        ZeroLastRow(rows, y, prev);
        prev
      case Some(span) =>
        match prev
        case None =>
          FirstHitRow(rows, y, span.0, span.1);
          Some(Box(span.0, y, span.1 + 1, y + 1))
        case Some(b) =>
          var left := if span.0 < b.left then span.0 else b.left;
          var right := if span.1 + 1 > b.right then span.1 + 1 else b.right;
          WidenBox(rows, y, b, span.0, span.1);
          Some(Box(left, b.top, right, y + 1))
  }

  /** The pixels of all rows but the last are those of the full rows above the last. */
  lemma DropLastRow(rows: seq<seq<int>>, y: nat)
    requires y == |rows| - 1
    ensures forall x, y' :: NonZero(rows[..y], x, y') <==> NonZero(rows, x, y') && y' < y
  {
  }

  /** An all-zero last row y changes neither the emptiness nor the box of the rows above it. */
  lemma ZeroLastRow(rows: seq<seq<int>>, y: nat, prev: Option<Box>)
    requires y == |rows| - 1
    requires forall x :: 0 <= x < |rows[y]| ==> rows[y][x] == 0
    requires prev.None? <==> AllZero(rows[..y])
    requires prev.Some? ==> Covers(rows[..y], prev.value) && Tight(rows[..y], prev.value)
    ensures prev.None? <==> AllZero(rows)
    ensures prev.Some? ==> Covers(rows, prev.value) && Tight(rows, prev.value)
  {
    DropLastRow(rows, y);
    assert forall x :: !NonZero(rows, x, y);
    if prev.Some? {
      var b := prev.value;
      var above := rows[..y];
      var yl :| NonZero(above, b.left, yl);
      var yr :| NonZero(above, b.right - 1, yr);
      var xt :| NonZero(above, xt, b.top);
      var xb :| NonZero(above, xb, b.bottom - 1);
      assert NonZero(rows, b.left, yl) && NonZero(rows, b.right - 1, yr);
      assert NonZero(rows, xt, b.top) && NonZero(rows, xb, b.bottom - 1);
    }
  }

  /** When the rows above y are all zero, the box of rows is the span of row y. */
  lemma FirstHitRow(rows: seq<seq<int>>, y: nat, lo: nat, hi: nat)
    requires y == |rows| - 1
    requires AllZero(rows[..y])
    requires lo <= hi < |rows[y]| && rows[y][lo] != 0 && rows[y][hi] != 0
    requires forall x :: 0 <= x < |rows[y]| && rows[y][x] != 0 ==> lo <= x <= hi
    ensures !AllZero(rows)
    ensures Covers(rows, Box(lo, y, hi + 1, y + 1)) && Tight(rows, Box(lo, y, hi + 1, y + 1))
  {
    DropLastRow(rows, y);
    assert NonZero(rows, lo, y) && NonZero(rows, hi, y);
  }

  /** Adding a last row y whose non-zero values span lo..hi to the rows above widens their box. */
  lemma WidenBox(rows: seq<seq<int>>, y: nat, b: Box, lo: nat, hi: nat)
    requires y == |rows| - 1
    requires Covers(rows[..y], b) && Tight(rows[..y], b)
    requires lo <= hi < |rows[y]| && rows[y][lo] != 0 && rows[y][hi] != 0
    requires forall x :: 0 <= x < |rows[y]| && rows[y][x] != 0 ==> lo <= x <= hi
    ensures var left := if lo < b.left then lo else b.left;
      var right := if hi + 1 > b.right then hi + 1 else b.right;
      Covers(rows, Box(left, b.top, right, y + 1)) && Tight(rows, Box(left, b.top, right, y + 1))
  {
    DropLastRow(rows, y);
    var above := rows[..y];
    var yl :| NonZero(above, b.left, yl);
    var yr :| NonZero(above, b.right - 1, yr);
    var xt :| NonZero(above, xt, b.top);
    assert NonZero(rows, b.left, yl) && NonZero(rows, b.right - 1, yr) && NonZero(rows, xt, b.top);
    assert NonZero(rows, lo, y) && NonZero(rows, hi, y);
  }

  /**
   * The source bounds sent with an image: the alpha bounding box, or `(0, 0, W, H)`
   * when no pixel has non-zero alpha.
   */
  function SourceBounds(alpha: Image): (b: Box)
    ensures 0 <= b.left <= b.right <= alpha.width && 0 <= b.top <= b.bottom <= alpha.height
    ensures AllZero(alpha.px) ==> b == Box(0, 0, alpha.width, alpha.height)
    ensures !AllZero(alpha.px) ==> Covers(alpha.px, b) && Tight(alpha.px, b)
  {
    match BBox(alpha.px)
    case None => Box(0, 0, alpha.width, alpha.height)
    case Some(b) =>
      var yr :| NonZero(alpha.px, b.right - 1, yr);
      var xb :| NonZero(alpha.px, xb, b.bottom - 1);
      b
  }

  /** Any box that covers every non-transparent pixel contains the source bounds. */
  lemma BoundsMinimal(alpha: Image, c: Box)
    requires !AllZero(alpha.px) && Covers(alpha.px, c)
    ensures var b := SourceBounds(alpha);
      c.left <= b.left && b.right <= c.right && c.top <= b.top && b.bottom <= c.bottom
  {
    var b := SourceBounds(alpha);
    var y0 :| NonZero(alpha.px, b.left, y0);
    var y1 :| NonZero(alpha.px, b.right - 1, y1);
    var x0 :| NonZero(alpha.px, x0, b.top);
    var x1 :| NonZero(alpha.px, x1, b.bottom - 1);
  }

  /** A fully opaque (or fully non-zero) non-empty image has the whole canvas as bounds. */
  lemma OpaqueBoundsFull(alpha: Image)
    requires alpha.width > 0 && alpha.height > 0
    requires forall y, x :: 0 <= y < alpha.height && 0 <= x < alpha.width ==> alpha.px[y][x] != 0
    ensures SourceBounds(alpha) == Box(0, 0, alpha.width, alpha.height)
  {
    var b := SourceBounds(alpha);
    assert NonZero(alpha.px, 0, 0);
    assert NonZero(alpha.px, alpha.width - 1, alpha.height - 1);
  }

  /** A single non-transparent pixel at (x, y) gives the unit box around it. */
  lemma SinglePixelBounds(alpha: Image, x: nat, y: nat)
    requires x < alpha.width && y < alpha.height && alpha.px[y][x] != 0
    requires forall y', x' ::
      (0 <= y' < alpha.height && 0 <= x' < alpha.width && (x', y') != (x, y)) ==> alpha.px[y'][x'] == 0
    ensures SourceBounds(alpha) == Box(x, y, x + 1, y + 1)
  {
    assert NonZero(alpha.px, x, y);
    var b := SourceBounds(alpha);
    var y0 :| NonZero(alpha.px, b.left, y0);
    var y1 :| NonZero(alpha.px, b.right - 1, y1);
    var x0 :| NonZero(alpha.px, x0, b.top);
    var x1 :| NonZero(alpha.px, x1, b.bottom - 1);
  }
}
