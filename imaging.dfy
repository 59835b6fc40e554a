/**
  Values the viewport panel handles: an optional slot and the bitmaps it
  draws. A bitmap is opaque to the panel; only its identity and its size
  matter to the hand-off logic and to the fill geometry.
 */
module Imaging {

  /** A value that may be absent (a null reference in the panel). */
  datatype Option<T> = None | Some(value: T)

  /** GDI+ refuses to create a bitmap with a zero or negative side. */
  type Extent = n: int | n > 0 witness 1

  /** An image buffer; `id` stands for object identity. The model compares
      bitmaps as whole values, which is object identity as long as one id
      is never given two sizes: a bitmap's size never changes. */
  datatype Bitmap = Bitmap(id: nat, width: Extent, height: Extent)
}
