/**
  What one paint pass draws. Drawing is recorded as commands instead of
  being performed: a stretched image, a black fill, or an unscaled image.
 */
module Render {
  import opened Imaging

  /** A GDI rectangle: origin, then width and height (possibly negative). */
  datatype Rect = Rect(x: int, y: int, width: int, height: int)

  datatype DrawCommand =
    | DrawImage(image: Bitmap, dest: Rect)            // stretched to dest
    | FillBlack(area: Rect)                           // solid black brush
    | DrawImageUnscaled(image: Bitmap, x: int, y: int) // native size at (x, y)

  /** The pixel (px, py) lies in r; a rectangle with a side <= 0 holds none. */
  predicate Contains(r: Rect, px: int, py: int) {
    r.x <= px < r.x + r.width && r.y <= py < r.y + r.height
  }

  /** The pixel (px, py) lies in the control's client area. */
  predicate InWindow(width: int, height: int, px: int, py: int) {
    0 <= px < width && 0 <= py < height
  }

  /** The rectangle a command writes to. */
  function Target(c: DrawCommand): Rect {
    match c
    case DrawImage(_, dest) => dest
    case FillBlack(area) => area
    case DrawImageUnscaled(b, x, y) => Rect(x, y, b.width, b.height)
  }

  /** The bitmap a command reads, if any. */
  function Source(c: DrawCommand): Option<Bitmap> {
    match c
    case DrawImage(b, _) => Some(b)
    case FillBlack(_) => None
    case DrawImageUnscaled(b, _, _) => Some(b)
  }

  /** Black strip to the right of a native-size image; it spans the full height. */
  function RightMargin(b: Bitmap, width: int, height: int): Rect {
    Rect(b.width, 0, width - b.width, height)
  }

  /** Black strip below a native-size image; it is as wide as the image. */
  function BottomMargin(b: Bitmap, width: int, height: int): Rect {
    Rect(0, b.height, b.width, height - b.height)
  }

  /** The drawing of a non-empty slot into a width x height control. */
  function PaintCommands(b: Bitmap, width: int, height: int, scaleImage: bool): seq<DrawCommand> {
    if scaleImage then
      [DrawImage(b, Rect(0, 0, width, height))]
    else
      [FillBlack(RightMargin(b, width, height)),
       FillBlack(BottomMargin(b, width, height)),
       DrawImageUnscaled(b, 0, 0)]
  }

  /** The drawing of one paint pass: nothing for an empty slot. */
  function PaintPass(current: Option<Bitmap>, width: int, height: int, scaleImage: bool): seq<DrawCommand> {
    match current
    case None => []
    case Some(b) => PaintCommands(b, width, height, scaleImage)
  }

  /** Some command of cmds writes the pixel (px, py). */
  predicate Covered(cmds: seq<DrawCommand>, px: int, py: int) {
    exists i :: 0 <= i < |cmds| && Contains(Target(cmds[i]), px, py)
  }

  /** A paint pass draws exactly when the slot holds a bitmap, and every image
      it draws is that bitmap. */
  lemma PaintPassDrawsOnlyCurrent(current: Option<Bitmap>, width: int, height: int, scaleImage: bool)
    ensures PaintPass(current, width, height, scaleImage) != [] <==> current.Some?
    ensures forall c | c in PaintPass(current, width, height, scaleImage) :: Source(c).Some? ==> Source(c) == current
  {
  }

  /** Scale-to-fit issues a single stretched draw whose target is exactly the
      client area. */
  lemma ScaledDrawFillsWindow(b: Bitmap, width: int, height: int)
    ensures |PaintCommands(b, width, height, true)| == 1
    ensures PaintCommands(b, width, height, true)[0].DrawImage?
    ensures PaintCommands(b, width, height, true)[0].image == b
    ensures forall px, py :: Contains(Target(PaintCommands(b, width, height, true)[0]), px, py) <==> InWindow(width, height, px, py)
  {
  }

  /** At native size the right strip, the bottom strip and the image never
      overlap, whatever the sizes. */
  lemma NativeSizeDisjoint(b: Bitmap, width: int, height: int)
    ensures forall px, py :: !(Contains(RightMargin(b, width, height), px, py) && Contains(BottomMargin(b, width, height), px, py))
    ensures forall px, py :: !(Contains(RightMargin(b, width, height), px, py) && Contains(Target(DrawImageUnscaled(b, 0, 0)), px, py))
    ensures forall px, py :: !(Contains(BottomMargin(b, width, height), px, py) && Contains(Target(DrawImageUnscaled(b, 0, 0)), px, py))
  {
  }

  /** Every pixel of the client area is written by a paint pass in either
      mode, so no stale pixel of an earlier frame survives. */
  lemma PaintCoversWindow(b: Bitmap, width: int, height: int, scaleImage: bool)
    ensures forall px, py :: InWindow(width, height, px, py) ==> Covered(PaintCommands(b, width, height, scaleImage), px, py)
  {
    var cmds := PaintCommands(b, width, height, scaleImage);
    forall px, py | InWindow(width, height, px, py) ensures Covered(cmds, px, py) {
      if scaleImage {
        assert Contains(Target(cmds[0]), px, py);
      } else if px >= b.width {
        assert Contains(Target(cmds[0]), px, py);
      } else if py >= b.height {
        assert Contains(Target(cmds[1]), px, py);
      } else {
        assert Contains(Target(cmds[2]), px, py);
      }
    }
  }

  /** At native size nothing is written outside the client area exactly when
      the bitmap fits in it. */
  lemma NativeSizeWithinWindowIff(b: Bitmap, width: int, height: int)
    ensures (forall c, px, py | c in PaintCommands(b, width, height, false) && Contains(Target(c), px, py) :: InWindow(width, height, px, py))
        <==> b.width <= width && b.height <= height
  {
    var cmds := PaintCommands(b, width, height, false);
    var image := DrawImageUnscaled(b, 0, 0);
    assert image in cmds;
    if b.width > width {
      assert Contains(Target(image), b.width - 1, 0) && !InWindow(width, height, b.width - 1, 0);
    } else if b.height > height {
      assert Contains(Target(image), 0, b.height - 1) && !InWindow(width, height, 0, b.height - 1);
    }
  }

  /** When the bitmap fits, the two black strips and the image tile the
      client area: they are pairwise disjoint and their union is exactly
      [0, width) x [0, height). */
  lemma NativeSizeTilesWindow(b: Bitmap, width: int, height: int)
    requires b.width <= width && b.height <= height
    ensures PaintCommands(b, width, height, false)
         == [FillBlack(RightMargin(b, width, height)), FillBlack(BottomMargin(b, width, height)), DrawImageUnscaled(b, 0, 0)]
    ensures forall px, py :: Covered(PaintCommands(b, width, height, false), px, py) <==> InWindow(width, height, px, py)
    ensures forall px, py, i, j | 0 <= i < j < 3 ::
      !(Contains(Target(PaintCommands(b, width, height, false)[i]), px, py) && Contains(Target(PaintCommands(b, width, height, false)[j]), px, py))
  {
    NativeSizeDisjoint(b, width, height);
    PaintCoversWindow(b, width, height, false);
    NativeSizeWithinWindowIff(b, width, height);
    var cmds := PaintCommands(b, width, height, false);
    forall px, py | Covered(cmds, px, py) ensures InWindow(width, height, px, py) {
      var i :| 0 <= i < |cmds| && Contains(Target(cmds[i]), px, py);
      assert cmds[i] in cmds;
    }
  }

  /** A 10x10 bitmap shown at native size in a 20x15 control: black on
      (10, 0, 10, 15) and (0, 10, 10, 5), the image at the origin. */
  lemma NativeSizeExample(id: nat)
    ensures PaintCommands(Bitmap(id, 10, 10), 20, 15, false)
         == [FillBlack(Rect(10, 0, 10, 15)), FillBlack(Rect(0, 10, 10, 5)), DrawImageUnscaled(Bitmap(id, 10, 10), 0, 0)]
  {
  }
}
