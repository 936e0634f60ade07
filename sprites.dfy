/**
 * Sprite-sheet slicing (util.go): a sheet is cut into `frameCount` frames of
 * `frameWidth` x `frameHeight` pixels taken left to right from its top row.
 * Frames are modelled by the rectangles that select them from the sheet.
 */
module Sprites {

  datatype Point = Point(X: int, Y: int)

  /** Go's image.Rectangle: the half-open pixel box [Min.X, Max.X) x [Min.Y, Max.Y). */
  datatype Rectangle = Rectangle(Min: Point, Max: Point)

  /** Go's image.Rect: the corners are swapped where needed so that the
      rectangle is well-formed (Min <= Max on both axes). */
  function Rect(x0: int, y0: int, x1: int, y1: int): (r: Rectangle)
    ensures r.Min.X <= r.Max.X && r.Min.Y <= r.Max.Y
    ensures (r.Min.X, r.Max.X) == (x0, x1) || (r.Min.X, r.Max.X) == (x1, x0)
    ensures (r.Min.Y, r.Max.Y) == (y0, y1) || (r.Min.Y, r.Max.Y) == (y1, y0)
  {
    var (minX, maxX) := if x0 > x1 then (x1, x0) else (x0, x1);
    var (minY, maxY) := if y0 > y1 then (y1, y0) else (y0, y1);
    Rectangle(Point(minX, minY), Point(maxX, maxY))
  }

  /** The rectangle requested for frame `i` of a sheet. */
  function FrameRect(i: int, frameWidth: int, frameHeight: int): Rectangle
  {
    Rect(i * frameWidth, 0, (i + 1) * frameWidth, frameHeight)
  }

  /** sliceSpriteSheet: one rectangle per frame, in increasing frame order. */
  method SliceSpriteSheet(frameCount: int, frameWidth: int, frameHeight: int) returns (frames: seq<Rectangle>)
    ensures |frames| == if frameCount > 0 then frameCount else 0
    ensures forall i :: 0 <= i < |frames| ==> frames[i] == FrameRect(i, frameWidth, frameHeight)
  {
    frames := [];
    var i := 0;
    while i < frameCount
      invariant 0 <= i <= (if frameCount > 0 then frameCount else 0)
      invariant |frames| == i
      invariant forall j :: 0 <= j < i ==> frames[j] == FrameRect(j, frameWidth, frameHeight)
    {
      var rect := Rect(i * frameWidth, 0, (i + 1) * frameWidth, frameHeight);
      frames := frames + [rect];
      i := i + 1;
    }
  }

  /** For non-negative sizes, frame `i` is exactly [i*w, (i+1)*w) x [0, h):
      the top row of the sheet, `w` pixels wide and `h` high. */
  lemma FrameRectOnTopRow(i: nat, frameWidth: int, frameHeight: int)
    requires frameWidth >= 0 && frameHeight >= 0
    ensures FrameRect(i, frameWidth, frameHeight) ==
              Rectangle(Point(i * frameWidth, 0), Point((i + 1) * frameWidth, frameHeight))
    ensures FrameRect(i, frameWidth, frameHeight).Max.X - FrameRect(i, frameWidth, frameHeight).Min.X == frameWidth
  {
    MulMonotone(i, i + 1, frameWidth);
  }

  /** Frames tile the top row: frame `i` ends where frame `i + 1` begins, and a
      frame lies wholly to the left of every later one, so no two overlap. */
  lemma FramesTile(i: nat, j: nat, frameWidth: int, frameHeight: int)
    requires frameWidth >= 0 && frameHeight >= 0 && i < j
    ensures FrameRect(i, frameWidth, frameHeight).Max.X <= FrameRect(j, frameWidth, frameHeight).Min.X
    ensures j == i + 1 ==> FrameRect(i, frameWidth, frameHeight).Max.X == FrameRect(j, frameWidth, frameHeight).Min.X
  {
    FrameRectOnTopRow(i, frameWidth, frameHeight);
    FrameRectOnTopRow(j, frameWidth, frameHeight);
    MulMonotone(i + 1, j, frameWidth);
  }

  lemma MulMonotone(a: nat, b: nat, w: int)
    requires a <= b && w >= 0
    ensures a * w <= b * w
  {
  }
}
