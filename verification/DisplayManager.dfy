/** The window compositor of drivers/DisplayManager.cpp: one framebuffer, scale 1. */
module DisplayManager {
  import opened Background
  import opened Lists
  import opened Maths
  import opened Geometry
  import opened View
  import opened Screen
  import opened Repaint

  class Display {
    var x: int
    var y: int
    var layer: nat
    var isVisible: bool
    var solidArea: Rect
    const width: nat
    const height: nat
    const corners: seq<seq<nat>>
    const rows: seq<seq<Pixel>>

    constructor (layer: nat, x: int, y: int, width: nat, height: nat, solidArea: Rect,
                 corners: seq<seq<nat>>, rows: seq<seq<Pixel>>)
      ensures this.layer == layer && this.x == x && this.y == y && !isVisible && this.solidArea == solidArea
      ensures this.width == width && this.height == height && this.corners == corners && this.rows == rows
    {
      this.layer, this.x, this.y, this.isVisible, this.solidArea := layer, x, y, false, solidArea;
      this.width, this.height, this.corners, this.rows := width, height, corners, rows;
    }

    function Snapshot(): View
      requires |corners| == 4
      reads this
    {
      View(x, y, layer, isVisible, width, height, solidArea, corners[0], corners[1], corners[2], corners[3], rows)
    }

    /** Its shape, which moving, showing and raising never change, is one the row scans can handle. */
    ghost predicate Shaped()
      reads this`solidArea
    {
      |corners| == 4
      && View(0, 0, 0, false, width, height, solidArea,
              corners[0], corners[1], corners[2], corners[3], rows).WellShaped()
    }

    function Area(): Rect
      reads this
    {
      Rect(x, y, x + width, y + height)
    }
  }

  /** A record, kept for the proofs alone, of how often each pixel of a framebuffer was written. */
  class WriteLog {
    ghost var writes: Writes

    constructor ()
      ensures writes == multiset{}
    {
      writes := multiset{};
    }
  }

  class Manager {
    // bottom to top, as the linked list from head to tail
    var displays: seq<Display>
    const framebuffer: array2<Pixel>
    // the background colour depends on the row alone
    const strip: int -> Pixel
    const log: WriteLog

    function ScreenArea(): Rect {
      Rect(0, 0, framebuffer.Length1, framebuffer.Length0)
    }

    // what the displays look like
    ghost var views: seq<View>

    ghost predicate Valid()
      reads this, displays
    {
      && (forall i, j | 0 <= i < j < |displays| :: displays[i] != displays[j])
      && Sees(views)
    }

    /** `vs` is what the displays look like now. */
    ghost predicate Sees(vs: seq<View>)
      reads this, displays
    {
      && |vs| == |displays| && AllShaped(vs)
      && (forall i | 0 <= i < |displays| :: |displays[i].corners| == 4 && displays[i].Snapshot() == vs[i])
    }

    ghost function Screenful(): (g: Pixels)
      reads framebuffer
      ensures |g| == framebuffer.Length0 && forall Y | 0 <= Y < |g| :: |g[Y]| == framebuffer.Length1
    {
      seq(framebuffer.Length0, Y requires 0 <= Y < framebuffer.Length0 reads framebuffer =>
        seq(framebuffer.Length1, X requires 0 <= X < framebuffer.Length1 reads framebuffer => framebuffer[Y, X]))
    }

    // ------------------------------------------------------ the solid pass

    /** One look through the displays above display i, on row y of display i. */
    method NarrowToVisible(ghost vs: seq<View>, i: nat, y: nat, start: int, x2: int)
      returns (startX: int, endX: int, nextX: int)
      requires Sees(vs) && i < |displays| && start < x2
      ensures start <= startX && endX <= x2
      ensures AllHidden(vs, i, vs[i].y + y, vs[i].x + start, vs[i].x + startX)
      ensures NoneHidden(vs, i, vs[i].y + y, vs[i].x + startX, vs[i].x + endX)
      ensures AllHidden(vs, i, vs[i].y + y, vs[i].x + endX, vs[i].x + nextX)
      ensures if nextX <= endX then endX == x2 else start < nextX
    {
      var display := displays[i];
      var Y := display.y + y;
      startX, endX, nextX := start, x2, start;
      var k := i + 1;
      while k < |displays|
        invariant i < k <= |displays|
        invariant start <= startX && endX <= x2 && startX < endX
        invariant AllHidden(vs, i, Y, display.x + start, display.x + startX)
        invariant forall X, j | display.x + startX <= X < display.x + endX && i < j < k :: !vs[j].Covers(X, Y)
        invariant AllHidden(vs, i, Y, display.x + endX, display.x + nextX)
        invariant if nextX <= endX then endX == x2 else start < nextX
      {
        var above := displays[k].Snapshot();
        if above.visible && above.HasRow(Y) {
          var areaX1 := above.Left(Y) - display.x;
          var areaX2 := above.Right(Y) - display.x;
          ExtentHides(vs, i, k, Y);
          if areaX1 <= startX {
            startX := Max(startX, areaX2);
            if startX >= endX {
              break;
            }
          } else if areaX1 < endX {
            nextX := if areaX2 < endX then areaX2 else Max(nextX, areaX2);
            endX := areaX1;
          }
        }
        k := k + 1;
      }
    }

    /** The one place where the screen is written. */
    method Put(X: int, Y: int, pixel: Pixel)
      requires 0 <= X < framebuffer.Length1 && 0 <= Y < framebuffer.Length0
      modifies framebuffer, log
      ensures framebuffer[Y, X] == pixel && log.writes == old(log.writes) + multiset{(X, Y)}
      ensures forall X', Y' | 0 <= X' < framebuffer.Length1 && 0 <= Y' < framebuffer.Length0 && (X', Y') != (X, Y) ::
        framebuffer[Y', X'] == old(framebuffer[Y', X'])
    {
      framebuffer[Y, X] := pixel;
      log.writes := log.writes + multiset{(X, Y)};
    }

    /** The copy of one stretch of a row (memcpy_aligned). */
    method CopyRow(row: seq<Pixel>, x: int, Y: int, from: int, to: int)
      requires 0 <= from <= to <= |row|
      requires 0 <= Y < framebuffer.Length0
      requires 0 <= x + from && x + to <= framebuffer.Length1
      modifies framebuffer, log
      ensures SpanCopied(old(Screenful()), Screenful(), row, x, Y, from, to)
      ensures WrittenOnce(old(log.writes), log.writes, Stretch(Y, x + from, x + to))
    {
      for k := from to to
        invariant WrittenOnce(old(log.writes), log.writes, Stretch(Y, x + from, x + k))
        invariant forall X, Y' | 0 <= X < framebuffer.Length1 && 0 <= Y' < framebuffer.Length0 ::
          framebuffer[Y', X] == if Y' == Y && x + from <= X < x + k then row[X - x] else old(framebuffer[Y', X])
      {
        Put(x + k, Y, row[k]);
      }
    }

    /** One round of the row loop: copy the next stretch nothing hides and say where to resume. */
    method PaintStretch(ghost vs: seq<View>, i: nat, y: nat, start: int, x2: int)
      returns (startX: int, endX: int, nextX: int)
      requires Sees(vs) && i < |displays| && y < displays[i].height
      requires 0 <= displays[i].y + y < framebuffer.Length0
      requires 0 <= start < x2 <= displays[i].width
      requires 0 <= displays[i].x + start && displays[i].x + x2 <= framebuffer.Length1
      requires SolidOn(vs, i, vs[i].y + y, vs[i].x + start, vs[i].x + x2)
      modifies framebuffer, log
      ensures start <= startX && endX <= x2
      ensures AllHidden(vs, i, vs[i].y + y, vs[i].x + start, vs[i].x + startX)
      ensures NoneHidden(vs, i, vs[i].y + y, vs[i].x + startX, vs[i].x + endX)
      ensures AllHidden(vs, i, vs[i].y + y, vs[i].x + endX, vs[i].x + nextX)
      ensures if nextX <= endX then endX == x2 else start < nextX
      ensures Redrawn(vs, strip, old(Screenful()), Screenful(), Stretch(vs[i].y + y, vs[i].x + startX, vs[i].x + endX))
      ensures WrittenOnce(old(log.writes), log.writes, Stretch(vs[i].y + y, vs[i].x + startX, vs[i].x + endX))
    {
      startX, endX, nextX := NarrowToVisible(vs, i, y, start, x2);
      if endX > startX {
        var display := displays[i];
        CopyRow(display.rows[y], display.x, display.y + y, startX, endX);
        SpanIsRedrawn(vs, strip, old(Screenful()), Screenful(), i, y, startX, endX);
      } else {
        RedrawnNothing(vs, strip, Screenful());
        assert Stretch(vs[i].y + y, vs[i].x + startX, vs[i].x + endX) == iset{};
      }
    }

    /** Paint the next stretch, add it to those painted since the row began, and go on behind it. */
    method PaintRound(ghost vs: seq<View>, i: nat, y: nat, ghost x1: int, start: int, x2: int,
                      ghost g: Pixels, ghost writes: Writes, ghost spans: seq<(int, int)>)
      returns (next: int, ghost more: seq<(int, int)>)
      requires Sees(vs) && i < |displays| && y < displays[i].height
      requires 0 <= displays[i].y + y < framebuffer.Length0
      requires 0 <= x1 <= start < x2 <= displays[i].width
      requires 0 <= displays[i].x + x1 && displays[i].x + x2 <= framebuffer.Length1
      requires SolidOn(vs, i, vs[i].y + y, vs[i].x + x1, vs[i].x + x2)
      requires RowPainted(vs, strip, g, Screenful(), writes, log.writes, i, vs[i].y + y,
                          vs[i].x + x1, vs[i].x + Min(start, x2), spans)
      modifies framebuffer, log
      ensures start < next
      ensures RowPainted(vs, strip, g, Screenful(), writes, log.writes, i, vs[i].y + y,
                         vs[i].x + x1, vs[i].x + Min(next, x2), more)
    {
      ghost var x, before, written := vs[i].x, Screenful(), log.writes;
      var visibleX, endX, nextX := PaintStretch(vs, i, y, start, x2);
      more := RoundPainted(vs, strip, g, before, Screenful(), writes, written, log.writes, i, vs[i].y + y,
        x + x1, x + start, x + x2, x + visibleX, x + endX, x + nextX, spans);
      next := if nextX > endX then nextX else x2;
    }

    /** Row y of display i between columns x1 and x2 of the display: the stretches no display
        above hides are copied to the screen, and each of their pixels once. `spans` names the
        stretches in screen columns: each visible pixel of the row is in one, each hidden one in none. */
    method PaintSolidRow(ghost vs: seq<View>, i: nat, y: nat, x1: int, x2: int) returns (ghost spans: seq<(int, int)>)
      requires Sees(vs) && i < |displays| && y < displays[i].height
      requires 0 <= displays[i].y + y < framebuffer.Length0
      requires 0 <= x1 && x2 <= displays[i].width
      requires x1 < x2 ==> 0 <= displays[i].x + x1 && displays[i].x + x2 <= framebuffer.Length1
      requires SolidOn(vs, i, vs[i].y + y, vs[i].x + x1, vs[i].x + x2)
      modifies framebuffer, log
      ensures RowScan(vs, i, vs[i].y + y, vs[i].x + x1, vs[i].x + x2, spans)
      ensures Redrawn(vs, strip, old(Screenful()), Screenful(), SpanRegion(spans, vs[i].y + y))
      ensures WrittenOnce(old(log.writes), log.writes, SpanRegion(spans, vs[i].y + y))
    {
      RowUntouched(vs, strip, Screenful(), log.writes, i, vs[i].y + y, vs[i].x + x1, vs[i].x + Min(x1, x2));
      spans := PaintRounds(vs, i, y, x1, x2, Screenful(), log.writes);
    }

    /** The rounds of PaintSolidRow. */
    method PaintRounds(ghost vs: seq<View>, i: nat, y: nat, x1: int, x2: int, ghost g: Pixels, ghost writes: Writes)
      returns (ghost spans: seq<(int, int)>)
      requires Sees(vs) && i < |displays| && y < displays[i].height
      requires 0 <= displays[i].y + y < framebuffer.Length0
      requires 0 <= x1 && x2 <= displays[i].width
      requires x1 < x2 ==> 0 <= displays[i].x + x1 && displays[i].x + x2 <= framebuffer.Length1
      requires SolidOn(vs, i, vs[i].y + y, vs[i].x + x1, vs[i].x + x2)
      requires RowPainted(vs, strip, g, Screenful(), writes, log.writes, i, vs[i].y + y,
                          vs[i].x + x1, vs[i].x + Min(x1, x2), [])
      modifies framebuffer, log
      ensures RowPainted(vs, strip, g, Screenful(), writes, log.writes, i, vs[i].y + y,
                         vs[i].x + x1, vs[i].x + x2, spans)
    {
      var startX := x1;
      spans := [];
      while startX < x2
        invariant x1 <= startX
        invariant RowPainted(vs, strip, g, Screenful(), writes, log.writes, i, vs[i].y + y,
                             vs[i].x + x1, vs[i].x + Min(startX, x2), spans)
      {
        startX, spans := PaintRound(vs, i, y, x1, startX, x2, g, writes, spans);
      }
    }

    /** __update_display_solid_area: every pixel of `displayRect` (in the display's own coordinates)
        that shows a solid part of display i is repainted, once, and no other pixel is written. */
    method UpdateDisplaySolidArea(ghost vs: seq<View>, i: nat, displayRect: Rect)
      requires Sees(vs) && i < |displays|
      modifies framebuffer, log
      ensures Redrawn(vs, strip, old(Screenful()), Screenful(), SolidRegion(vs, i, displayRect))
      ensures WrittenOnce(old(log.writes), log.writes, SolidRegion(vs, i, displayRect) * Within(ScreenArea()))
    {
      ghost var g, writes := Screenful(), log.writes;
      RedrawnNothing(vs, strip, g);
      if !displays[i].isVisible {
        assert SolidRegion(vs, i, displayRect) == iset{};
        return;
      }
      var rect := Clipped(displays[i].Snapshot(), displayRect, ScreenArea());
      assert SolidRegion(vs, i, rect.(y2 := rect.y1)) == iset{};
      var y := rect.y1;
      while y < rect.y2
        invariant y == rect.y1 || rect.y1 < y <= rect.y2
        invariant AreaPainted(vs, strip, g, Screenful(), writes, log.writes, i, rect.(y2 := y))
      {
        PaintNextRow(vs, i, displayRect, y, g, writes);
        y := y + 1;
      }
      ClippedPainted(vs, strip, g, Screenful(), writes, log.writes, i, displayRect, ScreenArea(), y);
    }

    /** One more row joins those painted so far. */
    method PaintNextRow(ghost vs: seq<View>, i: nat, displayRect: Rect, y: int, ghost g: Pixels, ghost writes: Writes)
      requires Sees(vs) && i < |displays| && displays[i].isVisible
      requires Clipped(vs[i], displayRect, ScreenArea()).y1 <= y < Clipped(vs[i], displayRect, ScreenArea()).y2
      requires AreaPainted(vs, strip, g, Screenful(), writes, log.writes, i,
        Clipped(vs[i], displayRect, ScreenArea()).(y2 := y))
      modifies framebuffer, log
      ensures AreaPainted(vs, strip, g, Screenful(), writes, log.writes, i,
        Clipped(vs[i], displayRect, ScreenArea()).(y2 := y + 1))
    {
      ghost var before, written := Screenful(), log.writes;
      PaintClippedRow(vs, i, displayRect, y);
      RowJoins(vs, strip, g, before, Screenful(), writes, written, log.writes, i,
        Clipped(vs[i], displayRect, ScreenArea()), y);
    }

    /** One row of the clipped rectangle. */
    method PaintClippedRow(ghost vs: seq<View>, i: nat, displayRect: Rect, y: int)
      requires Sees(vs) && i < |displays| && displays[i].isVisible
      requires Clipped(vs[i], displayRect, ScreenArea()).y1 <= y < Clipped(vs[i], displayRect, ScreenArea()).y2
      modifies framebuffer, log
      ensures AreaPainted(vs, strip, old(Screenful()), Screenful(), old(log.writes), log.writes, i,
        Clipped(vs[i], displayRect, ScreenArea()).(y1 := y, y2 := y + 1))
    {
      var view := displays[i].Snapshot();
      var rect := Clipped(view, displayRect, ScreenArea());
      ClippedRow(view, displayRect, ScreenArea(), y);
      var x1 := Max(rect.x1, view.LeftMargin(y));
      var x2 := Min(rect.x2, view.width - view.RightMargin(y));
      ghost var spans := PaintSolidRow(vs, i, y, x1, x2);
      SolidRegionRow(vs, i, rect, y, x1, x2, spans);
    }

    // ------------------------------------------------------ the background

    /** One look through all displays, for a stretch of row Y none of them reaches. */
    method NarrowToBare(ghost vs: seq<View>, Y: int, start: int, x2: int) returns (startX: int, endX: int, nextX: int)
      requires Sees(vs) && start < x2
      ensures Look(startX, endX, nextX) == LookPast(vs, Y, |vs|, start, x2)
      ensures Narrowing(vs, Y, |vs|, start, x2, Look(startX, endX, nextX))
    {
      startX, endX, nextX := start, x2, start;
      var k := 0;
      while k < |displays|
        invariant 0 <= k <= |displays| && startX < endX
        invariant Look(startX, endX, nextX) == LookPast(vs, Y, k, start, x2)
      {
        var view := displays[k].Snapshot();
        assert view == vs[k];
        if view.visible && view.HasRow(Y) {
          var areaX1, areaX2 := view.Left(Y), view.Right(Y);
          if areaX1 <= startX {
            startX := Max(startX, areaX2);
            if startX >= endX {
              LookIsOver(vs, Y, k + 1, start, x2);
              LookNarrows(vs, Y, |vs|, start, x2);
              return;
            }
          } else if areaX1 < endX {
            endX := areaX1;
            nextX := Max(nextX, areaX2);
          }
        }
        k := k + 1;
      }
      LookNarrows(vs, Y, |vs|, start, x2);
    }

    /** _update_background_area: what it fills, no display covers; and a seamless row is filled wherever
        none does. */
    method UpdateBackgroundArea(ghost vs: seq<View>, screenRect: Rect)
      requires Sees(vs)
      modifies framebuffer, log
      ensures Filled(strip, old(Screenful()), Screenful(), FilledIn(vs, screenRect.Intersect(ScreenArea())))
      ensures Redrawn(vs, strip, old(Screenful()), Screenful(), iset{})
      ensures Cleared(vs, strip, Screenful(), Within(screenRect))
    {
      var rect := screenRect.Intersect(ScreenArea());
      var Y := rect.y1;
      assert FilledIn(vs, rect.(y2 := Y)) == iset{};
      while Y < rect.y2
        invariant Y == rect.y1 || rect.y1 < Y <= rect.y2
        invariant Filled(strip, old(Screenful()), Screenful(), FilledIn(vs, rect.(y2 := Y)))
      {
        ghost var before := Screenful();
        UpdateBackgroundRow(vs, Y, rect.x1, rect.x2);
        FilledAgain(strip, old(Screenful()), before, Screenful(),
          FilledIn(vs, rect.(y2 := Y)), FilledIn(vs, Rect(rect.x1, Y, rect.x2, Y + 1)));
        FilledRows(vs, rect, Y);
        Y := Y + 1;
      }
      assert FilledIn(vs, rect.(y2 := Y)) == FilledIn(vs, rect);
      FillingFacts(vs, strip, old(Screenful()), Screenful(), rect);
      ClearedOnScreen(vs, strip, Screenful(), screenRect, ScreenArea());
    }

    /** The rounds of the scan of one row. */
    method UpdateBackgroundRow(ghost vs: seq<View>, Y: int, x1: int, x2: int)
      requires Sees(vs) && 0 <= Y < framebuffer.Length0 && 0 <= x1 && x2 <= framebuffer.Length1
      modifies framebuffer, log
      ensures Filled(strip, old(Screenful()), Screenful(), FilledIn(vs, Rect(x1, Y, x2, Y + 1)))
    {
      ghost var filled: Region := iset{};
      var start := x1;
      while start < x2
        invariant x1 <= start
        invariant Filled(strip, old(Screenful()), Screenful(), filled)
        invariant FilledSoFar(vs, Y, x1, start, x2, filled)
      {
        ghost var before := Screenful();
        var startX, endX, nextX := NarrowToBare(vs, Y, start, x2);
        if endX > startX {
          FillStretch(Y, startX, endX);
        } else {
          assert Stretch(Y, startX, endX) == iset{};
        }
        FilledAgain(strip, old(Screenful()), before, Screenful(), filled, Stretch(Y, startX, endX));
        filled := filled + Stretch(Y, startX, endX);
        if nextX <= endX {
          break;
        }
        start := nextX;
      }
      assert filled == FilledIn(vs, Rect(x1, Y, x2, Y + 1));
    }

    method FillStretch(Y: int, from: int, to: int)
      requires 0 <= Y < framebuffer.Length0 && 0 <= from <= to <= framebuffer.Length1
      modifies framebuffer, log
      ensures Filled(strip, old(Screenful()), Screenful(), Stretch(Y, from, to))
    {
      var colour := strip(Y);
      for x := from to to
        invariant forall X, Y' | 0 <= X < framebuffer.Length1 && 0 <= Y' < framebuffer.Length0 ::
          framebuffer[Y', X] == if Y' == Y && from <= X < x then colour else old(framebuffer[Y', X])
      {
        Put(x, Y, colour);
      }
    }

    // -------------------------------------------------- the whole solid pass

    /** _update_area_solid: everything beneath display `below`, or everything. */
    method UpdateAreaSolid(ghost vs: seq<View>, rect: Rect, below: int)
      requires Sees(vs) && NONE <= below < |displays|
      modifies framebuffer, log
      ensures Redrawn(vs, strip, old(Screenful()), Screenful(), SolidBelow(vs, rect, Ceiling(vs, below)))
      ensures Cleared(vs, strip, Screenful(), Within(rect))
    {
      UpdateBackgroundArea(vs, rect);
      assert SolidBelow(vs, rect, 0) == iset{};
      var i := 0;
      while i < |displays| && i != below
        invariant 0 <= i <= Ceiling(vs, below)
        invariant Redrawn(vs, strip, old(Screenful()), Screenful(), SolidBelow(vs, rect, i))
        invariant Cleared(vs, strip, Screenful(), Within(rect))
      {
        UpdateLayerSolid(vs, rect, i, old(Screenful()));
        i := i + 1;
      }
    }

    method UpdateLayerSolid(ghost vs: seq<View>, rect: Rect, i: nat, ghost g: Pixels)
      requires Sees(vs) && i < |displays| && Redrawn(vs, strip, g, Screenful(), SolidBelow(vs, rect, i))
      requires Cleared(vs, strip, Screenful(), Within(rect))
      modifies framebuffer, log
      ensures Redrawn(vs, strip, g, Screenful(), SolidBelow(vs, rect, i + 1))
      ensures Cleared(vs, strip, Screenful(), Within(rect))
    {
      if displays[i].isVisible {
        PaintLayer(vs, rect, i, g);
      } else {
        assert SolidBelow(vs, rect, i + 1) == SolidBelow(vs, rect, i);
      }
    }

    method PaintLayer(ghost vs: seq<View>, rect: Rect, i: nat, ghost g: Pixels)
      requires Sees(vs) && i < |displays| && Redrawn(vs, strip, g, Screenful(), SolidBelow(vs, rect, i))
      requires Cleared(vs, strip, Screenful(), Within(rect))
      modifies framebuffer, log
      ensures Redrawn(vs, strip, g, Screenful(), SolidBelow(vs, rect, i + 1))
      ensures Cleared(vs, strip, Screenful(), Within(rect))
    {
      ghost var before := Screenful();
      var display := displays[i];
      var area := rect.Offset(-display.x, -display.y).Intersect(display.solidArea);
      UpdateDisplaySolidArea(vs, i, area);
      LayerRedrawn(vs, strip, g, before, Screenful(), rect, i);
      ClearedStays(vs, strip, before, Screenful(), SolidRegion(vs, i, area), Within(rect));
    }

    // ------------------------------------------------- the translucent pass

    /** _find_display_section_in_row: where the section of row Y that starts at x ends, and what
        starts there. `current` is the display that shows at x, or NONE. */
    method FindSection(ghost vs: seq<View>, x: int, Y: int, x2: int, current: int)
      returns (next: int, found: int, isTransparent: bool)
      requires Sees(vs) && x < x2
      requires NONE <= current < |displays| && (current != NONE ==> IsTop(vs, current, x, Y))
      ensures x <= next <= x2 && NONE <= found < |displays|
      ensures Section(vs, x, Y, current, next) && (current != NONE ==> x < next)
      ensures found == NONE && current == NONE ==> next == x2
      ensures found != NONE && next < x2 ==> IsTop(vs, found, next, Y) && isTransparent == !vs[found].SolidAt(next, Y)
    {
      var foundLeft := x2;
      if current != NONE {
        foundLeft := SectionRight(displays[current].Snapshot(), x, Y, x2);
        SectionIsUniform(vs[current], x, Y, x2);
      }
      var limit := foundLeft;
      found, isTransparent := NONE, false;
      var k := |displays| - 1;
      while k >= 0 && k != current
        invariant NONE <= k < |displays| && current <= k
        invariant Searched(vs, x, Y, limit, k, found, foundLeft, isTransparent)
      {
        var view := displays[k].Snapshot();
        SearchStep(vs, x, Y, limit, k, found, foundLeft, isTransparent);
        if view.visible && view.HasRow(Y) && view.Right(Y) > x {
          var (left, transparent) := SectionAhead(view, x, Y);
          if left <= x {
            return x, k, transparent;
          } else if left < foundLeft {
            foundLeft, isTransparent, found := left, transparent, k;
          }
        }
        k := k - 1;
      }
      next := Min(foundLeft, x2);
    }

    /** __calculate_blending_at: the colour beneath display `top`, looking down from it. */
    method BlendingAt(ghost vs: seq<View>, x: int, y: int, top: int) returns (result: Pixel)
      requires Sees(vs) && NONE <= top < |displays|
      ensures result == Blending(vs[..top + 1], x, y, strip(y))
    {
      result := BLACK;
      var visibility: Byte := 255;
      var k := top;
      while k >= 0
        invariant NONE <= k <= top
        invariant Accumulate(vs[..k + 1], x, y, strip(y), result, visibility) == Blending(vs[..top + 1], x, y, strip(y))
      {
        assert vs[..k + 1][..k] == vs[..k];
        var view := displays[k].Snapshot();
        if view.Covers(x, y) {
          var read := view.PixelAt(x, y);
          result := AddLayer(result, read, visibility);
          if view.SolidAt(x, y) || visibility <= 255 - read.a {
            return;
          }
          visibility := visibility - (255 - read.a);
        }
        k := k - 1;
      }
      result := AddBackground(result, strip(y), visibility);
    }

    /** What is shown where display `top` is translucent. */
    method TranslucentPixel(ghost vs: seq<View>, x: int, y: int, top: int) returns (pixel: Pixel)
      requires Sees(vs) && IsTop(vs, top, x, y) && !vs[top].SolidAt(x, y)
      ensures pixel == Composite(vs, x, y, strip(y))
    {
      CompositeOfTop(vs, top, x, y, strip(y));
      assert vs[..top + 1][..top] == vs[..top];
      pixel := displays[top].Snapshot().PixelAt(x, y);
      if pixel.a != 0 {
        var below := BlendingAt(vs, x, y, top - 1);
        pixel := Blend(below, pixel);
      }
    }

    /** Render a translucent section, pixel by pixel. */
    method DrawSection(ghost vs: seq<View>, Y: int, from: int, to: int, top: int)
      requires Sees(vs) && 0 <= top < |displays| && 0 <= Y < framebuffer.Length0
      requires 0 <= from <= to <= framebuffer.Length1
      requires forall X | from <= X < to :: IsTop(vs, top, X, Y) && !vs[top].SolidAt(X, Y)
      modifies framebuffer, log
      ensures Redrawn(vs, strip, old(Screenful()), Screenful(), Stretch(Y, from, to))
    {
      RedrawnNothing(vs, strip, Screenful());
      assert Stretch(Y, from, from) == iset{};
      for x := from to to
        invariant Redrawn(vs, strip, old(Screenful()), Screenful(), Stretch(Y, from, x))
      {
        ghost var before := Screenful();
        var pixel := TranslucentPixel(vs, x, Y, top);
        Put(x, Y, pixel);
        PixelRedrawn(vs, strip, old(Screenful()), before, Screenful(), Y, from, x);
      }
    }

    /** The section walk over one row: it meets every translucent pixel of the row and repaints it. */
    method UpdateRowTransparency(ghost vs: seq<View>, Y: int, x1: int, x2: int)
      requires Sees(vs) && 0 <= Y < framebuffer.Length0 && 0 <= x1 && x2 <= framebuffer.Length1
      modifies framebuffer, log
      ensures Redrawn(vs, strip, old(Screenful()), Screenful(), TranslucentIn(vs, Rect(x1, Y, x2, Y + 1)))
    {
      var display, isTransparent, scanX := NONE, false, x1;
      RedrawnNothing(vs, strip, Screenful());
      assert TranslucentIn(vs, Rect(x1, Y, Min(x1, x2), Y + 1)) == iset{};
      while scanX < x2
        invariant x1 <= scanX && NONE <= display < |displays|
        invariant display != NONE && scanX < x2 ==>
          IsTop(vs, display, scanX, Y) && isTransparent == !vs[display].SolidAt(scanX, Y)
        invariant Redrawn(vs, strip, old(Screenful()), Screenful(),
          TranslucentIn(vs, Rect(x1, Y, Min(scanX, x2), Y + 1)))
        decreases x2 - scanX, if display == NONE then 1 else 0
      {
        ghost var before := Screenful();
        var nextX, nextDisplay, nextTransparent := FindSection(vs, scanX, Y, x2, display);
        if display != NONE && isTransparent {
          DrawSection(vs, Y, scanX, nextX, display);
        }
        SectionRedrawn(vs, strip, old(Screenful()), before, Screenful(), x1, Y, scanX, display, nextX, isTransparent);
        if display == NONE && nextDisplay == NONE {
          break;
        }
        display, isTransparent, scanX := nextDisplay, nextTransparent, nextX;
      }
    }

    /** _update_area_transparency. */
    method UpdateAreaTransparency(ghost vs: seq<View>, screenRect: Rect)
      requires Sees(vs)
      modifies framebuffer, log
      ensures Redrawn(vs, strip, old(Screenful()), Screenful(), TranslucentIn(vs, screenRect))
    {
      var rect := screenRect.Intersect(ScreenArea());
      RedrawnNothing(vs, strip, Screenful());
      assert TranslucentIn(vs, rect.(y2 := rect.y1)) == iset{};
      var Y := rect.y1;
      while Y < rect.y2
        invariant Y == rect.y1 || rect.y1 < Y <= rect.y2
        invariant Redrawn(vs, strip, old(Screenful()), Screenful(), TranslucentIn(vs, rect.(y2 := Y)))
      {
        ghost var before := Screenful();
        UpdateRowTransparency(vs, Y, rect.x1, rect.x2);
        RedrawnAgain(vs, strip, old(Screenful()), before, Screenful(),
          TranslucentIn(vs, rect.(y2 := Y)), TranslucentIn(vs, Rect(rect.x1, Y, rect.x2, Y + 1)));
        TranslucentRows(vs, rect, Y);
        Y := Y + 1;
      }
      TranslucentOnScreen(vs, strip, old(Screenful()), Screenful(), screenRect, ScreenArea(), Y);
    }

    /** _update_area. */
    method UpdateArea(ghost vs: seq<View>, rect: Rect, below: int)
      requires Sees(vs) && NONE <= below < |displays|
      modifies framebuffer, log
      ensures Redrawn(vs, strip, old(Screenful()), Screenful(), Within(rect) * Beneath(vs, Ceiling(vs, below)))
      ensures Cleared(vs, strip, Screenful(), Within(rect))
    {
      UpdateAreaSolid(vs, rect, below);
      ghost var before := Screenful();
      UpdateAreaTransparency(vs, rect);
      ClearedStays(vs, strip, before, Screenful(), TranslucentIn(vs, rect), Within(rect));
      UnderRedrawn(vs, strip, old(Screenful()), before, Screenful(), rect, Ceiling(vs, below));
    }

    // ------------------------------------------------------ the operations

    /** Everything a visible display covers is on the screen as it should be. */
    ghost predicate ScreenRight()
      requires AllShaped(views)
      reads this, framebuffer
    {
      Right(views, strip, Screenful())
    }

    constructor (framebuffer: array2<Pixel>, strip: int -> Pixel)
      ensures Valid() && ScreenRight() && displays == [] && this.framebuffer == framebuffer && this.strip == strip
      ensures fresh(log)
    {
      this.framebuffer := framebuffer;
      this.strip := strip;
      log := new WriteLog();
      displays, views := [], [];
    }

    method IndexOf(display: Display) returns (i: nat)
      requires display in displays
      ensures i < |displays| && displays[i] == display
    {
      i := 0;
      while displays[i] != display
        invariant i < |displays| && display in displays[i..]
        decreases |displays| - i
      {
        i := i + 1;
      }
    }

    /** One of the strips a moved display leaves behind. */
    method RepaintStrip(ghost vs: seq<View>, enabled: bool, rect: Rect, below: int, ghost g: Pixels,
                        ghost cover: Region)
      requires Sees(vs) && 0 <= below < |displays|
      requires Redrawn(vs, strip, g, Screenful(), cover * Beneath(vs, below)) && Cleared(vs, strip, Screenful(), cover)
      modifies framebuffer, log
      ensures var wider := if enabled then cover + Within(rect) else cover;
        Redrawn(vs, strip, g, Screenful(), wider * Beneath(vs, below)) && Cleared(vs, strip, Screenful(), wider)
    {
      if enabled {
        ghost var before := Screenful();
        UpdateArea(vs, rect, below);
        ClearedStays(vs, strip, before, Screenful(), Within(rect) * Beneath(vs, below), cover);
        RedrawnAgain(vs, strip, g, before, Screenful(), cover * Beneath(vs, below), Within(rect) * Beneath(vs, below));
        assert cover * Beneath(vs, below) + Within(rect) * Beneath(vs, below)
          == (cover + Within(rect)) * Beneath(vs, below);
      }
    }

    /** The part of `oldRect` outside `area`, as up to four strips above, below, left and right of it. */
    method RepaintVacated(ghost vs: seq<View>, oldRect: Rect, area: Rect, below: int) returns (ghost cover: Region)
      requires Sees(vs) && 0 <= below < |displays|
      modifies framebuffer, log
      ensures Redrawn(vs, strip, old(Screenful()), Screenful(), cover * Beneath(vs, below))
      ensures Cleared(vs, strip, Screenful(), cover)
      ensures forall X, Y | oldRect.Contains(X, Y) && ScreenArea().Contains(X, Y) && !area.Contains(X, Y) ::
        (X, Y) in cover
    {
      ghost var g := Screenful();
      var total := ScreenArea();
      var above := oldRect.Intersect(total.(y2 := area.y1));
      var beneath := oldRect.Intersect(total.(y1 := area.y2));
      var left := oldRect.Intersect(Rect(total.x1, area.y1, area.x1, area.y2));
      var right := oldRect.Intersect(Rect(area.x2, area.y1, total.x2, area.y2));
      cover := iset{};
      RedrawnNothing(vs, strip, g);
      assert cover * Beneath(vs, below) == iset{};
      RepaintStrip(vs, area.y1 > total.y1, above, below, g, cover);
      cover := if area.y1 > total.y1 then cover + Within(above) else cover;
      RepaintStrip(vs, area.y2 < total.y2, beneath, below, g, cover);
      cover := if area.y2 < total.y2 then cover + Within(beneath) else cover;
      RepaintStrip(vs, area.x1 > total.x1, left, below, g, cover);
      cover := if area.x1 > total.x1 then cover + Within(left) else cover;
      RepaintStrip(vs, area.x2 < total.x2, right, below, g, cover);
      cover := if area.x2 < total.x2 then cover + Within(right) else cover;
      forall X, Y | oldRect.Contains(X, Y) && ScreenArea().Contains(X, Y) && !area.Contains(X, Y)
        ensures (X, Y) in cover
      {
        IntersectContains(oldRect, total.(y2 := area.y1), X, Y);
        IntersectContains(oldRect, total.(y1 := area.y2), X, Y);
        IntersectContains(oldRect, Rect(total.x1, area.y1, area.x1, area.y2), X, Y);
        IntersectContains(oldRect, Rect(area.x2, area.y1, total.x2, area.y2), X, Y);
      }
    }

    /** Change one display's visibility and place; the rest of the stack stays as it is. */
    method Change(display: Display, x: int, y: int, visible: bool) returns (i: nat)
      requires Valid() && display in displays
      modifies this`views, display`x, display`y, display`isVisible
      ensures Valid() && i < |displays| && displays[i] == display
      ensures views == old(views)[i := old(views)[i].(x := x, y := y, visible := visible)]
      ensures display.x == x && display.y == y && display.isVisible == visible
    {
      i := IndexOf(display);
      display.x, display.y, display.isVisible := x, y, visible;
      SameShape(views[i], display.Snapshot());
      views := views[i := display.Snapshot()];
    }

    /** _hide_display. */
    method Hide(display: Display) returns (ghost i: nat)
      requires Valid() && display in displays
      modifies this`views, display`x, display`y, display`isVisible, framebuffer, log
      ensures Valid() && i < |displays| && displays[i] == display
      ensures views == old(views)[i := old(views)[i].(visible := false)]
      ensures Refreshed(old(views), views, strip, old(Screenful()), Screenful(), iset{})
    {
      if !display.isVisible {
        i := Place(display);
        NothingChanged(views, strip, Screenful(), iset{});
        return;
      }
      var p := Change(display, display.x, display.y, false);
      i := p;
      RepaintHidden(old(views), views, p);
    }

    /** The place of a display on the list. */
    lemma Place(display: Display) returns (i: nat)
      requires Valid() && display in displays
      ensures i < |displays| && displays[i] == display && views[i] == display.Snapshot()
      ensures views == views[i := views[i].(x := display.x, y := display.y, visible := display.isVisible)]
    {
      i :| i < |displays| && displays[i] == display;
    }

    method RepaintHidden(ghost vs: seq<View>, ghost ws: seq<View>, i: nat)
      requires Sees(ws) && i < |displays| && AllShaped(vs) && |vs| == |ws| && ws == vs[i := vs[i].(visible := false)]
      modifies framebuffer, log
      ensures Refreshed(vs, ws, strip, old(Screenful()), Screenful(), iset{})
    {
      UpdateArea(ws, displays[i].Area(), i);
      HideRefreshes(vs, ws, strip, old(Screenful()), Screenful(), i);
    }

    /** _show_display. Without `update` only the display's own rectangle may be stale. */
    method Show(display: Display, update: bool) returns (ghost i: nat)
      requires Valid() && display in displays
      modifies this`views, display`x, display`y, display`isVisible, framebuffer, log
      ensures Valid() && i < |displays| && displays[i] == display
      ensures views == old(views)[i := old(views)[i].(visible := true)]
      ensures Refreshed(old(views), views, strip, old(Screenful()), Screenful(),
                        if update then iset{} else Within(display.Area()))
    {
      if display.isVisible {
        i := Place(display);
        NothingChanged(views, strip, Screenful(), if update then iset{} else Within(display.Area()));
        return;
      }
      var p := Change(display, display.x, display.y, true);
      i := p;
      assert Footprint(views[p]) == display.Area();
      RepaintShown(old(views), views, p, update);
    }

    method RepaintShown(ghost vs: seq<View>, ghost ws: seq<View>, i: nat, update: bool)
      requires Sees(ws) && i < |displays| && AllShaped(vs) && |vs| == |ws|
        && ws == vs[i := vs[i].(visible := true)] && !vs[i].visible
      modifies framebuffer, log
      ensures Refreshed(vs, ws, strip, old(Screenful()), Screenful(),
                        if update then iset{} else Within(Footprint(ws[i])))
    {
      if update {
        RepaintDisplay(ws, i);
      }
      ShowRefreshes(vs, ws, strip, old(Screenful()), Screenful(), i, update);
    }

    /** _move_display_to. Without `update` only the display's new rectangle may be stale. */
    method Move(display: Display, x: int, y: int, update: bool) returns (ghost i: nat)
      requires Valid() && display in displays
      modifies this`views, display`x, display`y, display`isVisible, framebuffer, log
      ensures Valid() && i < |displays| && displays[i] == display
      ensures views == old(views)[i := old(views)[i].(x := x, y := y)]
      ensures Refreshed(old(views), views, strip, old(Screenful()), Screenful(),
                        if update then iset{} else Within(display.Area()))
    {
      if display.x == x && display.y == y {
        i := Place(display);
        NothingChanged(views, strip, Screenful(), if update then iset{} else Within(display.Area()));
        return;
      }
      var oldRect := display.Area();
      var p := Change(display, x, y, display.isVisible);
      i := p;
      assert Footprint(views[p]) == display.Area();
      RepaintMoved(old(views), views, p, oldRect, update);
    }

    method RepaintMoved(ghost vs: seq<View>, ghost ws: seq<View>, i: nat, oldRect: Rect, update: bool)
      requires Sees(ws) && i < |displays| && AllShaped(vs) && |vs| == |ws|
      requires ws == vs[i := vs[i].(x := ws[i].x, y := ws[i].y)] && oldRect == Footprint(vs[i])
      modifies framebuffer, log
      ensures Refreshed(vs, ws, strip, old(Screenful()), Screenful(),
                        if update then iset{} else Within(Footprint(ws[i])))
    {
      if !displays[i].isVisible {
        HiddenMoveRefreshes(vs, ws, strip, Screenful(), i, if update then iset{} else Within(Footprint(ws[i])));
        return;
      }
      var area := displays[i].Area();
      ghost var cover := RepaintVacated(ws, oldRect, area, i);
      ghost var painted, cleared := cover * Beneath(ws, i), cover;
      if update {
        ghost var before := Screenful();
        RepaintUnder(ws, i, area);
        MovedUnder(ws, strip, old(Screenful()), before, Screenful(), i, area, cover);
        painted, cleared := painted + Within(area) * Beneath(ws, i + 1), cover + Within(area);
      }
      MoveRefreshes(vs, ws, strip, old(Screenful()), Screenful(), i, ScreenArea(), cover, painted, cleared, update);
    }

    /** A display, everything beneath it and everything translucent, in the display's rectangle. */
    method RepaintUnder(ghost vs: seq<View>, i: nat, rect: Rect)
      requires Sees(vs) && i < |displays|
      modifies framebuffer, log
      ensures Redrawn(vs, strip, old(Screenful()), Screenful(), Within(rect) * Beneath(vs, i + 1))
      ensures Cleared(vs, strip, Screenful(), Within(rect))
    {
      UpdateAreaSolid(vs, rect, i);
      PaintLayer(vs, rect, i, old(Screenful()));
      ghost var before := Screenful();
      UpdateAreaTransparency(vs, rect);
      ClearedStays(vs, strip, before, Screenful(), TranslucentIn(vs, rect), Within(rect));
      UnderRedrawn(vs, strip, old(Screenful()), before, Screenful(), rect, i + 1);
    }

    /** Unless it tops its layer already, pop the display at p and put it back after the last
        other whose layer is not above its own. */
    method RaiseInList(list: seq<Display>, p: nat) returns (raised: seq<Display>, k: nat)
      requires p < |list|
      ensures p <= k < |list| && raised == Lift(list, p, k)
      ensures k + 1 < |list| ==> list[k + 1].layer > list[p].layer
      ensures p < k ==> list[k].layer <= list[p].layer && forall l | k < l < |list| :: list[l].layer > list[p].layer
    {
      if p == |list| - 1 || list[p + 1].layer > list[p].layer {
        LiftElements(list, p, p);
        return list, p;
      }
      var others := list[..p] + list[p + 1..];
      assert forall l | p <= l < |others| :: others[l] == list[l + 1];
      k := |others|;
      while k > 0 && others[k - 1].layer > list[p].layer
        invariant p < k <= |others|
        invariant forall l | k <= l < |others| :: others[l].layer > list[p].layer
      {
        assert others[p] == list[p + 1];
        k := k - 1;
      }
      assert forall l | k < l < |list| :: list[l] == others[l - 1];
      raised := others[..k] + [list[p]] + others[k..];
      LiftElements(list, p, k);
    }

    method SetList(raised: seq<Display>, ghost p: nat, ghost k: nat)
      requires Valid() && p <= k < |displays| && raised == Lift(displays, p, k)
      modifies this`displays, this`views
      ensures Valid() && displays == raised && views == Lift(old(views), p, k)
    {
      LiftElements(displays, p, k);
      LiftElements(views, p, k);
      displays, views := raised, Lift(views, p, k);
    }

    /** _raise_display: to the top of its layer, unless it is there already. */
    method Raise(display: Display) returns (ghost i: nat, ghost j: nat)
      requires Valid() && display in displays
      modifies this`displays, this`views, framebuffer, log
      ensures Valid() && i <= j < |displays| == |old(displays)| && old(displays)[i] == display
      ensures displays == Lift(old(displays), i, j) && views == Lift(old(views), i, j)
      ensures j + 1 < |displays| ==> old(displays)[j + 1].layer > display.layer
      ensures LayersSorted(old(views)) ==> LayersSorted(views)
      ensures Refreshed(old(views), views, strip, old(Screenful()), Screenful(), iset{})
    {
      var p := IndexOf(display);
      var raised, k := RaiseInList(displays, p);
      i, j := p, k;
      LiftLayers(views, p, k);
      RaiseTo(raised, p, k);
    }

    lemma LiftLayers(vs: seq<View>, p: nat, k: nat)
      requires Sees(vs) && p <= k < |displays|
      requires p < k ==>
        displays[k].layer <= displays[p].layer
        && forall l | k < l < |displays| :: displays[l].layer > displays[p].layer
      ensures LayersSorted(vs) ==> LayersSorted(Lift(vs, p, k))
    {
      assert forall l | 0 <= l < |displays| :: displays[l].layer == vs[l].layer;
      if p < k {
        LiftSorted(vs, p, k);
      } else {
        LiftElements(vs, p, p);
      }
    }

    method RaiseTo(raised: seq<Display>, p: nat, k: nat)
      requires Valid() && p <= k < |displays| && raised == Lift(displays, p, k)
      modifies this`displays, this`views, framebuffer, log
      ensures Valid() && displays == raised && views == Lift(old(views), p, k)
      ensures Refreshed(old(views), views, strip, old(Screenful()), Screenful(), iset{})
    {
      if p == k {
        LiftElements(displays, p, p);
        LiftElements(views, p, p);
        NothingChanged(views, strip, Screenful(), iset{});
        return;
      }
      SetList(raised, p, k);
      RepaintRaised(old(views), views, p, k);
    }

    method RepaintRaised(ghost vs: seq<View>, ghost ws: seq<View>, ghost i: nat, j: nat)
      requires Sees(ws) && AllShaped(vs) && i <= j < |displays| && |vs| == |ws| && ws == Lift(vs, i, j)
      modifies framebuffer, log
      ensures Refreshed(vs, ws, strip, old(Screenful()), Screenful(), iset{})
    {
      RepaintDisplay(ws, j);
      RaiseRefreshes(vs, ws, strip, old(Screenful()), Screenful(), i, j);
    }

    /** _update_display_solid, then _update_area_transparency of the display's rectangle. */
    method RepaintDisplay(ghost vs: seq<View>, i: nat)
      requires Sees(vs) && i < |displays|
      modifies framebuffer, log
      ensures Redrawn(vs, strip, old(Screenful()), Screenful(),
        SolidRegion(vs, i, vs[i].solid) + TranslucentIn(vs, Footprint(vs[i])))
    {
      UpdateDisplaySolidArea(vs, i, displays[i].solidArea);
      ghost var before := Screenful();
      UpdateAreaTransparency(vs, displays[i].Area());
      RedrawnAgain(vs, strip, old(Screenful()), before, Screenful(),
        SolidRegion(vs, i, vs[i].solid), TranslucentIn(vs, Footprint(vs[i])));
    }

    /** _create_view: centre the display and put it, still hidden, at the top of its layer. */
    method Create(display: Display) returns (ghost k: nat)
      requires Valid() && display !in displays && !display.isVisible && display.Shaped()
      modifies this`displays, this`views, display`x, display`y
      ensures Valid() && k <= |old(displays)| && displays == With(old(displays), k, display)
      ensures views == With(old(views), k, display.Snapshot())
      ensures !display.isVisible && Centred(display.x, framebuffer.Length1 - display.width)
      ensures if framebuffer.Length0 >= display.height then Centred(display.y, framebuffer.Length0 - display.height)
        else display.y == 0
      ensures k > 0 ==> displays[k - 1].layer <= display.layer
      ensures forall l | k < l < |displays| :: displays[l].layer > display.layer
      ensures Refreshed(old(views), views, strip, old(Screenful()), Screenful(), iset{})
    {
      display.x := HalfTowardsZero(framebuffer.Length1 - display.width);
      display.y := Max(0, HalfTowardsZero(framebuffer.Length0 - display.height));
      k := InsertOnTop(display);
    }

    method InsertOnTop(display: Display) returns (ghost k: nat)
      requires Valid() && display !in displays && !display.isVisible && display.Shaped()
      modifies this`displays, this`views
      ensures Valid() && k <= |old(displays)| && displays == With(old(displays), k, display)
      ensures views == With(old(views), k, display.Snapshot())
      ensures k > 0 ==> displays[k - 1].layer <= display.layer
      ensures forall l | k < l < |displays| :: displays[l].layer > display.layer
      ensures Refreshed(old(views), views, strip, old(Screenful()), Screenful(), iset{})
    {
      var p := TopOfLayer(display.layer);
      k := p;
      WithElements(displays, p, display);
      Insert(display, p);
    }

    method TopOfLayer(layer: nat) returns (p: nat)
      ensures p <= |displays| && (p > 0 ==> displays[p - 1].layer <= layer)
      ensures forall l | p <= l < |displays| :: displays[l].layer > layer
    {
      p := |displays|;
      while p > 0 && displays[p - 1].layer > layer
        invariant p <= |displays| && forall l | p <= l < |displays| :: displays[l].layer > layer
      {
        p := p - 1;
      }
    }

    method Insert(display: Display, k: nat)
      requires Valid() && display !in displays && !display.isVisible && display.Shaped() && k <= |displays|
      modifies this`displays, this`views
      ensures Valid() && displays == With(old(displays), k, display)
      ensures views == With(old(views), k, display.Snapshot())
      ensures Refreshed(old(views), views, strip, old(Screenful()), Screenful(), iset{})
    {
      ghost var v, vs := display.Snapshot(), views;
      InsertInList(display, k);
      InsertRefreshes(vs, views, strip, Screenful(), k, v);
    }

    method InsertInList(display: Display, k: nat)
      requires Valid() && display !in displays && display.Shaped() && k <= |displays|
      modifies this`displays, this`views
      ensures Valid() && displays == With(old(displays), k, display) && views == With(old(views), k, display.Snapshot())
    {
      ghost var v := display.Snapshot();
      SameShape(v.(x := 0, y := 0, layer := 0, visible := false), v);
      WithElements(displays, k, display);
      WithElements(views, k, v);
      displays, views := With(displays, k, display), With(views, k, v);
    }

    /** ~Display: take it out of the list and repaint its rectangle; recycled already, do nothing. */
    method Destroy(display: Display) returns (ghost i: nat)
      requires Valid()
      modifies this`displays, this`views, framebuffer, log
      ensures Valid() && display !in displays && forall d | d != display :: d in displays <==> d in old(displays)
      ensures if display !in old(displays) then displays == old(displays) && views == old(views)
        else
          && i < |old(displays)| && old(displays)[i] == display
          && displays == Without(old(displays), i) && views == Without(old(views), i)
      ensures Refreshed(old(views), views, strip, old(Screenful()), Screenful(), iset{})
    {
      i := 0;
      if display !in displays {
        NothingChanged(views, strip, Screenful(), iset{});
        return;
      }
      var area := display.Area();
      var p := IndexOf(display);
      i := p;
      WithoutOne(displays, p);
      assert Footprint(views[p]) == area;
      PopDisplay(p);
      RepaintDestroyed(old(views), views, p, area);
    }

    method PopDisplay(i: nat)
      requires Valid() && i < |displays|
      modifies this`displays, this`views
      ensures Valid() && displays == Without(old(displays), i) && views == Without(old(views), i)
    {
      displays, views := Without(displays, i), Without(views, i);
    }

    method RepaintDestroyed(ghost vs: seq<View>, ghost ws: seq<View>, ghost i: nat, area: Rect)
      requires Sees(ws) && AllShaped(vs) && i < |vs| && ws == Without(vs, i) && area == Footprint(vs[i])
      modifies framebuffer, log
      ensures Refreshed(vs, ws, strip, old(Screenful()), Screenful(), iset{})
    {
      UpdateArea(ws, area, NONE);
      DestroyRefreshes(vs, ws, strip, old(Screenful()), Screenful(), i);
    }

    ghost function Now(): Stack
      reads this
    {
      Stack(displays, views)
    }

    /** One operation; a display that is not on the list is only ever created. */
    method Apply(op: Op)
      requires Valid() && op.display.Shaped()
      modifies this`displays, this`views, op.display`x, op.display`y, op.display`isVisible, framebuffer, log
      ensures Valid() && Follows(op, old(Now()), Now())
      ensures Refreshed(old(views), views, strip, old(Screenful()), Screenful(), iset{})
    {
      ghost var was := Now();
      if op.DestroyIt? {
        ghost var i := Destroy(op.display);
        assert op.display in was.displays ==> ChangedAt(op, was, Now(), i, i);
      } else if op.CreateIt? && op.display !in displays && !op.display.isVisible {
        ghost var k := Create(op.display);
        assert CreatedAt(op.display, was, Now(), k, op.display.Snapshot());
      } else if op.CreateIt? || op.display !in displays {
        NothingChanged(views, strip, Screenful(), iset{});
      } else {
        ApplyTo(op);
      }
    }

    /** An operation on a display of the list that leaves it there. */
    method ApplyTo(op: Op)
      requires Valid() && op.display in displays && !op.DestroyIt? && !op.CreateIt?
      modifies this`displays, this`views, op.display`x, op.display`y, op.display`isVisible, framebuffer, log
      ensures Valid() && Follows(op, old(Now()), Now())
      ensures Refreshed(old(views), views, strip, old(Screenful()), Screenful(), iset{})
    {
      ghost var i, j, was := 0, 0, Now();
      match op {
        case MoveTo(display, x, y) => i := Move(display, x, y, true);
        case ShowIt(display) => i := Show(display, true);
        case HideIt(display) => i := Hide(display);
        case RaiseIt(display) => i, j := Raise(display);
      }
      assert ChangedAt(op, was, Now(), i, j);
    }

    /** Any run of operations leaves every covered pixel of the screen right. A row that showed
        background wherever it was bare still does, if it is seamless after every operation. */
    method Run(ops: seq<Op>) returns (ghost history: seq<Stack>)
      requires Valid() && ScreenRight()
      requires forall op | op in ops :: op.display.Shaped()
      modifies this`displays, this`views, set op | op in ops :: op.display, framebuffer, log
      ensures Valid() && ScreenRight()
      ensures IsHistory(ops, old(Now()), Now(), history)
      ensures forall Y | RowClear(old(views), strip, old(Screenful()), Y, iset{}) && AlwaysSeamless(history, Y) ::
        RowClear(views, strip, Screenful(), Y, iset{})
    {
      history := [Now()];
      for n := 0 to |ops|
        invariant Valid() && ScreenRight()
        invariant forall op | op in ops :: op.display.Shaped()
        invariant IsHistory(ops[..n], old(Now()), Now(), history)
        invariant forall Y | RowClear(old(views), strip, old(Screenful()), Y, iset{}) && AlwaysSeamless(history, Y) ::
          RowClear(views, strip, Screenful(), Y, iset{})
      {
        assert ops[n] in ops;
        ghost var was := history;
        Apply(ops[n]);
        history := history + [Now()];
        HistoryGrows(ops, n, was, Now());
      }
      assert ops[..|ops|] == ops;
    }
  }

  /** The list of displays, and what they look like. */
  datatype Stack = Stack(displays: seq<Display>, views: seq<View>)

  /** What an operation may make of the stack. */
  ghost predicate Follows(op: Op, was: Stack, now: Stack)
    requires |was.displays| == |was.views|
  {
    if op.CreateIt? then
      now == was || exists k, v :: CreatedAt(op.display, was, now, k, v)
    else if op.display !in was.displays then now == was
    else exists i, j :: ChangedAt(op, was, now, i, j)
  }

  ghost predicate CreatedAt(display: Display, was: Stack, now: Stack, k: nat, v: View)
    requires |was.displays| == |was.views|
  {
    !v.visible && k <= |was.displays| && now == Stack(With(was.displays, k, display), With(was.views, k, v))
  }

  /** The operation on display i, which raising lifts to place j. */
  ghost predicate ChangedAt(op: Op, was: Stack, now: Stack, i: nat, j: nat)
    requires |was.displays| == |was.views| && !op.CreateIt?
  {
    && i < |was.displays| && was.displays[i] == op.display
    && var v := was.views[i];
    match op
    case MoveTo(_, x, y) => now == was.(views := was.views[i := v.(x := x, y := y)])
    case ShowIt(_) => now == was.(views := was.views[i := v.(visible := true)])
    case HideIt(_) => now == was.(views := was.views[i := v.(visible := false)])
    case RaiseIt(_) =>
      i <= j < |was.displays| && now == Stack(Lift(was.displays, i, j), Lift(was.views, i, j))
    case DestroyIt(_) => now == Stack(Without(was.displays, i), Without(was.views, i))
  }

  /** The stacks before, between and after the operations. */
  ghost predicate IsHistory(ops: seq<Op>, first: Stack, last: Stack, history: seq<Stack>) {
    && |history| == |ops| + 1 && history[0] == first && history[|ops|] == last
    && (forall n | 0 <= n < |history| :: |history[n].displays| == |history[n].views| && AllShaped(history[n].views))
    && (forall n | 0 <= n < |ops| :: Follows(ops[n], history[n], history[n + 1]))
  }

  /** Row Y is seamless in every stack of the history. */
  ghost predicate AlwaysSeamless(history: seq<Stack>, Y: int)
    requires forall n | 0 <= n < |history| :: AllShaped(history[n].views)
  {
    forall n | 0 <= n < |history| :: Seamless(history[n].views, Y)
  }

  lemma HistoryGrows(ops: seq<Op>, n: nat, history: seq<Stack>, now: Stack)
    requires n < |ops| && |history| == n + 1 && IsHistory(ops[..n], history[0], history[n], history)
    requires |now.displays| == |now.views| && AllShaped(now.views) && Follows(ops[n], history[n], now)
    ensures IsHistory(ops[..n + 1], history[0], now, history + [now])
    ensures forall Y | AlwaysSeamless(history + [now], Y) :: AlwaysSeamless(history, Y) && Seamless(now.views, Y)
  {
    var longer := history + [now];
    forall m | 0 <= m < n + 1 ensures Follows(ops[..n + 1][m], longer[m], longer[m + 1]) {
      if m < n {
        assert Follows(ops[..n][m], history[m], history[m + 1]);
      }
    }
    forall Y | AlwaysSeamless(longer, Y) ensures AlwaysSeamless(history, Y) && Seamless(now.views, Y) {
      assert longer[n + 1] == now;
      assert forall m | 0 <= m < |history| :: history[m] == longer[m];
    }
  }

  /** Of the room that is left, or missing, half is in front: what is behind is the same or one more. */
  predicate Centred(front: int, room: int) {
    var behind := room - front;
    if room >= 0 then front <= behind <= front + 1 else front - 1 <= behind <= front
  }

  /** Signed division by two, as the centring does it. */
  function HalfTowardsZero(n: int): int {
    if n >= 0 then n / 2 else -((-n) / 2)
  }

  datatype Op =
    | MoveTo(display: Display, x: int, y: int)
    | ShowIt(display: Display)
    | HideIt(display: Display)
    | RaiseIt(display: Display)
    | CreateIt(display: Display)
    | DestroyIt(display: Display)
}
