/** What the display manager knows of one display at one moment, as a value, and
    what the screen should show at each pixel for a stack of displays.

    Displays are listed bottom to top, as in the manager's list. Scale is 1. */
module View {
  import opened Maths
  import opened Geometry

  type Byte = n: nat | n < 256

  /** A pixel in b, g, r, a byte order. `a` is transparency: 0 is opaque. */
  datatype Pixel = Pixel(r: Byte, g: Byte, b: Byte, a: Byte)

  const CORNER_ROWS := 16

  datatype View = View(
    x: int, y: int, layer: nat, visible: bool,
    width: nat, height: nat,
    solid: Rect,
    topLeft: seq<nat>, topRight: seq<nat>, bottomLeft: seq<nat>, bottomRight: seq<nat>,
    rows: seq<seq<Pixel>>)
  {
    predicate WellFormed() {
      && |topLeft| == |topRight| == |bottomLeft| == |bottomRight| == CORNER_ROWS
      && |rows| == height
      && (forall i | 0 <= i < height :: |rows[i]| == width)
      && 0 <= solid.y1 && solid.y2 <= height
    }

    function Margin(row: nat, top: seq<nat>, bottom: seq<nat>): (m: nat)
      requires |top| == |bottom| == CORNER_ROWS
      ensures m <= width / 2
    {
      if row < CORNER_ROWS && row <= height / 2 then Min(top[row], width / 2)
      else if 0 <= height - 1 - row < CORNER_ROWS then Min(bottom[height - 1 - row], width / 2)
      else 0
    }

    function LeftMargin(row: nat): nat
      requires WellFormed()
    {
      Margin(row, topLeft, bottomLeft)
    }

    function RightMargin(row: nat): nat
      requires WellFormed()
    {
      Margin(row, topRight, bottomRight)
    }

    predicate HasRow(Y: int) {
      y <= Y < y + height
    }

    /** First screen column the display occupies on screen row Y. */
    function Left(Y: int): int
      requires WellFormed() && HasRow(Y)
    {
      x + LeftMargin(Y - y)
    }

    /** First screen column to the right of the display on screen row Y. */
    function Right(Y: int): int
      requires WellFormed() && HasRow(Y)
    {
      x + width - RightMargin(Y - y)
    }

    predicate Covers(X: int, Y: int)
      requires WellFormed()
    {
      visible && HasRow(Y) && Left(Y) <= X < Right(Y)
    }

    predicate SolidAt(X: int, Y: int) {
      solid.Contains(X - x, Y - y)
    }

    function PixelAt(X: int, Y: int): Pixel
      requires WellFormed() && Covers(X, Y)
    {
      rows[Y - y][X - x]
    }

    /** No row is squeezed to nothing by its corners. */
    ghost predicate RowsNonEmpty()
      requires WellFormed()
    {
      forall r: nat | r < height :: LeftMargin(r) + RightMargin(r) < width
    }

    /** The display's first pixel on the row is left of the solid area, or in a solid area that starts
        at the display's edge, or there is no solid area right of the edge. */
    predicate LeftEdgeClearOn(row: nat)
      requires WellFormed()
    {
      solid.y1 <= row < solid.y2 ==>
        || LeftMargin(row) < solid.x1
        || (solid.x1 <= 0 && LeftMargin(row) < solid.x2)
        || (solid.x1 > 0 && solid.x2 <= solid.x1)
    }

    ghost predicate LeftEdgeClear()
      requires WellFormed()
    {
      forall r: nat | r < height :: LeftEdgeClearOn(r)
    }

    ghost predicate WellShaped() {
      WellFormed() && RowsNonEmpty() && LeftEdgeClear()
    }
  }

  /** A corner cuts `cut` pixels off its end of a row, but none beyond the middle. */
  predicate CutOff(column: int, cut: nat, width: nat) {
    column < width / 2 && column < cut
  }

  /** A visible display covers its rectangle without the pixels that its four corners cut off: the top
      ones from the first rows of the upper half, the bottom ones from the last rows elsewhere. */
  lemma CoversIff(v: View, column: int, row: int)
    requires v.WellFormed()
    ensures v.Covers(v.x + column, v.y + row) <==>
      && v.visible && 0 <= column < v.width && 0 <= row < v.height
      && (row < 16 && row <= v.height / 2 ==>
           !CutOff(column, v.topLeft[row], v.width) && !CutOff(v.width - 1 - column, v.topRight[row], v.width))
      && (!(row < 16 && row <= v.height / 2) && v.height - row <= 16 ==>
           && !CutOff(column, v.bottomLeft[v.height - 1 - row], v.width)
           && !CutOff(v.width - 1 - column, v.bottomRight[v.height - 1 - row], v.width))
  {
  }

  ghost predicate AllShaped(vs: seq<View>) {
    forall i | 0 <= i < |vs| :: vs[i].WellShaped()
  }

  /** Display i is the one that shows at (X, Y). */
  ghost predicate IsTop(vs: seq<View>, i: int, X: int, Y: int)
    requires AllShaped(vs)
  {
    0 <= i < |vs| && vs[i].Covers(X, Y) && forall j | i < j < |vs| :: !vs[j].Covers(X, Y)
  }

  ghost predicate Covered(vs: seq<View>, X: int, Y: int)
    requires AllShaped(vs)
  {
    exists i | 0 <= i < |vs| :: vs[i].Covers(X, Y)
  }

  /** The pixel at (X, Y) belongs to a translucent part of the display that shows there. */
  ghost predicate TransparentTop(vs: seq<View>, X: int, Y: int)
    requires AllShaped(vs)
  {
    exists i :: IsTop(vs, i, X, Y) && !vs[i].SolidAt(X, Y)
  }

  // ---------------------------------------------------------------- blending

  /** `(A*trans/255)+B` of two-argument blend_colours, before the bytes are or-ed together. */
  function BlendChannel(below: Byte, top: Byte, trans: Byte): nat {
    below * trans / 255 + top
  }

  /** A byte of the or-ed word: a sum above 255 leaks its carry into the lowest bit of the next byte. */
  function OrCarry(sum: nat, carry: bool): Byte {
    var low := sum % 256;
    if carry && low % 2 == 0 then low + 1 else low
  }

  /** Two-argument blend_colours. The bytes are shifted and or-ed in the order b, g, r, a. */
  function Blend(below: Pixel, top: Pixel): Pixel {
    var b := BlendChannel(below.b, top.b, top.a);
    var g := BlendChannel(below.g, top.g, top.a);
    var r := BlendChannel(below.r, top.r, top.a);
    Pixel(b := OrCarry(b, false), g := OrCarry(g, b > 255), r := OrCarry(r, g > 255),
          a := OrCarry(below.a * top.a / 255, r > 255))
  }

  /** The running colour of the blending loop after one more layer, clamped at 255. */
  function AddLayer(acc: Pixel, read: Pixel, visibility: Byte): Pixel {
    acc.(r := Min(acc.r + read.r * visibility / 255, 255),
         g := Min(acc.g + read.g * visibility / 255, 255),
         b := Min(acc.b + read.b * visibility / 255, 255))
  }

  /** The background is added into bytes, so it would wrap. */
  function AddBackground(acc: Pixel, bg: Pixel, visibility: Byte): Pixel {
    acc.(r := (acc.r + Min(bg.r * visibility / 255, 255)) % 256,
         g := (acc.g + Min(bg.g * visibility / 255, 255)) % 256,
         b := (acc.b + Min(bg.b * visibility / 255, 255)) % 256)
  }

  /** The colour the blending loop arrives at when it still has to walk down `vs`. */
  function Accumulate(vs: seq<View>, X: int, Y: int, bg: Pixel, acc: Pixel, visibility: Byte): Pixel
    requires forall i | 0 <= i < |vs| :: vs[i].WellFormed()
  {
    if vs == [] then AddBackground(acc, bg, visibility)
    else
      var v, rest := vs[|vs| - 1], vs[..|vs| - 1];
      if !v.Covers(X, Y) then Accumulate(rest, X, Y, bg, acc, visibility)
      else
        var read := v.PixelAt(X, Y);
        var acc' := AddLayer(acc, read, visibility);
        if v.SolidAt(X, Y) || visibility <= 255 - read.a then acc'
        else Accumulate(rest, X, Y, bg, acc', visibility - (255 - read.a))
  }

  const BLACK := Pixel(0, 0, 0, 0)

  function Blending(vs: seq<View>, X: int, Y: int, bg: Pixel): Pixel
    requires forall i | 0 <= i < |vs| :: vs[i].WellFormed()
  {
    Accumulate(vs, X, Y, bg, BLACK, 255)
  }

  /** What the screen should show: the topmost display's own pixel where it is solid or
      fully opaque, and otherwise that pixel blended over everything beneath it. */
  function Composite(vs: seq<View>, X: int, Y: int, bg: Pixel): Pixel
    requires forall i | 0 <= i < |vs| :: vs[i].WellFormed()
  {
    if vs == [] then bg
    else
      var v, rest := vs[|vs| - 1], vs[..|vs| - 1];
      if !v.Covers(X, Y) then Composite(rest, X, Y, bg)
      else
        var top := v.PixelAt(X, Y);
        if v.SolidAt(X, Y) || top.a == 0 then top
        else Blend(Blending(rest, X, Y, bg), top)
  }

  // ------------------------------------------------- composition is per pixel

  /** Displays above the topmost one contribute nothing. */
  lemma {:induction false} CompositeOfTop(vs: seq<View>, i: int, X: int, Y: int, bg: Pixel)
    requires AllShaped(vs) && IsTop(vs, i, X, Y)
    ensures Composite(vs, X, Y, bg) == Composite(vs[..i + 1], X, Y, bg)
    decreases |vs|
  {
    if i == |vs| - 1 {
      assert vs[..i + 1] == vs;
    } else {
      CompositeOfTop(vs[..|vs| - 1], i, X, Y, bg);
      assert vs[..|vs| - 1][..i + 1] == vs[..i + 1];
    }
  }

  /** A display that does not reach the pixel can be anywhere in the stack, or nowhere. */
  lemma {:induction false} SkipNonCovering(a: seq<View>, v: View, b: seq<View>, X: int, Y: int, bg: Pixel)
    requires AllShaped(a + [v] + b) && AllShaped(a + b)
    requires v.WellFormed() && !v.Covers(X, Y)
    ensures forall acc, vis :: Accumulate(a + [v] + b, X, Y, bg, acc, vis) == Accumulate(a + b, X, Y, bg, acc, vis)
    ensures Composite(a + [v] + b, X, Y, bg) == Composite(a + b, X, Y, bg)
    decreases |b|
  {
    if b == [] {
      assert a + [v] + b == a + [v] && a + b == a && (a + [v])[..|a|] == a;
    } else {
      var c := b[..|b| - 1];
      assert (a + [v] + b)[..|a + [v] + b| - 1] == a + [v] + c;
      assert (a + b)[..|a + b| - 1] == a + c;
      SkipNonCovering(a, v, c, X, Y, bg);
    }
  }

  /** Changing displays that reach the pixel neither before nor after changes nothing there. */
  lemma {:induction false} SameWhereNotReached(vs: seq<View>, ws: seq<View>, X: int, Y: int, bg: Pixel)
    requires |vs| == |ws| && AllShaped(vs) && AllShaped(ws)
    requires forall i | 0 <= i < |vs| :: vs[i] == ws[i] || (!vs[i].Covers(X, Y) && !ws[i].Covers(X, Y))
    ensures forall acc, vis :: Accumulate(vs, X, Y, bg, acc, vis) == Accumulate(ws, X, Y, bg, acc, vis)
    ensures Composite(vs, X, Y, bg) == Composite(ws, X, Y, bg)
    decreases |vs|
  {
    if vs == [] {
      assert ws == [];
    } else {
      SameWhereNotReached(vs[..|vs| - 1], ws[..|ws| - 1], X, Y, bg);
    }
  }

  /** A solid topmost pixel hides whatever is beneath it. */
  lemma SolidTopValue(vs: seq<View>, i: int, X: int, Y: int, bg: Pixel)
    requires AllShaped(vs) && IsTop(vs, i, X, Y) && vs[i].SolidAt(X, Y)
    ensures Composite(vs, X, Y, bg) == vs[i].PixelAt(X, Y)
  {
  }

  /** Every covered pixel has exactly one topmost display. */
  lemma {:induction false} TopExists(vs: seq<View>, X: int, Y: int) returns (i: int)
    requires AllShaped(vs) && Covered(vs, X, Y)
    ensures IsTop(vs, i, X, Y)
  {
    if vs[|vs| - 1].Covers(X, Y) {
      i := |vs| - 1;
    } else {
      i := TopExists(vs[..|vs| - 1], X, Y);
    }
  }
}
