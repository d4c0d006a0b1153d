/** What scanning, painting and repainting by the display manager amounts to, on values: which
    pixels a row scan finds, which a pass redraws, and why that repairs the screen. */
module Repaint {
  import opened Maths
  import opened Geometry
  import opened View
  import opened Screen

  const NONE := -1

  ghost predicate SpansAscend(spans: seq<(int, int)>, bound: int) {
    && (forall k | 0 <= k < |spans| :: spans[k].0 < spans[k].1 <= bound)
    && (forall k, l | 0 <= k < l < |spans| :: spans[k].1 <= spans[l].0)
  }

  ghost predicate InSpans(spans: seq<(int, int)>, x: int) {
    exists k | 0 <= k < |spans| :: spans[k].0 <= x < spans[k].1
  }

  /** A visible display above display i reaches (X, Y). */
  ghost predicate HiddenBy(vs: seq<View>, i: int, X: int, Y: int)
    requires AllShaped(vs)
  {
    exists j | i < j < |vs| && 0 <= j :: vs[j].Covers(X, Y)
  }

  ghost function Stretch(Y: int, lo: int, hi: int): Region {
    iset p: (int, int) | p.1 == Y && lo <= p.0 < hi
  }

  ghost function SpanRegion(spans: seq<(int, int)>, Y: int): Region {
    iset p: (int, int) | p.1 == Y && InSpans(spans, p.0)
  }

  /** Display i owns a solid pixel in each of the columns, hidden or not. */
  ghost predicate SolidOn(vs: seq<View>, i: int, Y: int, lo: int, hi: int)
    requires AllShaped(vs) && 0 <= i < |vs|
  {
    forall X | lo <= X < hi :: vs[i].Covers(X, Y) && vs[i].SolidAt(X, Y)
  }

  ghost predicate AllHidden(vs: seq<View>, i: int, Y: int, lo: int, hi: int)
    requires AllShaped(vs)
  {
    forall X | lo <= X < hi :: HiddenBy(vs, i, X, Y)
  }

  ghost predicate NoneHidden(vs: seq<View>, i: int, Y: int, lo: int, hi: int)
    requires AllShaped(vs)
  {
    forall X | lo <= X < hi :: !HiddenBy(vs, i, X, Y)
  }

  /** A visible display hides a non-empty stretch of each of its rows. */
  lemma ExtentHides(vs: seq<View>, i: int, k: int, Y: int)
    requires AllShaped(vs) && 0 <= i < k < |vs| && vs[k].visible && vs[k].HasRow(Y)
    ensures vs[k].Left(Y) < vs[k].Right(Y)
    ensures AllHidden(vs, i, Y, vs[k].Left(Y), vs[k].Right(Y))
  {
  }

  /** Screen column X of screen row Y is in [lo, hi) and no display above display i hides it. */
  ghost predicate Shows(vs: seq<View>, i: int, Y: int, lo: int, hi: int, X: int)
    requires AllShaped(vs)
  {
    lo <= X < hi && !HiddenBy(vs, i, X, Y)
  }

  /** How a round of the row scan extends what has been painted so far. */
  lemma ShowsStep(vs: seq<View>, i: int, Y: int, first: int, start: int, end: int, visible: int, stop: int, next: int)
    requires AllShaped(vs) && first <= start < end
    requires start <= visible && stop <= end
    requires AllHidden(vs, i, Y, start, visible) && NoneHidden(vs, i, Y, visible, stop)
    requires AllHidden(vs, i, Y, stop, next)
    requires if next <= stop then stop == end else start < next
    ensures var resume := if next > stop then next else end;
      forall X :: Shows(vs, i, Y, first, Min(resume, end), X) <==>
        Shows(vs, i, Y, first, start, X) || visible <= X < stop
  {
    var resume := if next > stop then next else end;
    forall X
      ensures Shows(vs, i, Y, first, Min(resume, end), X) <==>
        Shows(vs, i, Y, first, start, X) || visible <= X < stop
    {
      if start <= X < visible || stop <= X < next {
        assert HiddenBy(vs, i, X, Y);
      } else if visible <= X < stop {
        assert !HiddenBy(vs, i, X, Y);
      }
    }
  }

  lemma WithoutOne<T>(s: seq<T>, i: nat)
    requires i < |s| && forall k, l | 0 <= k < l < |s| :: s[k] != s[l]
    ensures forall e :: e in s[..i] + s[i + 1..] <==> e in s && e != s[i]
  {
  }

  lemma SameShape(v: View, w: View)
    requires v.WellShaped() && w == v.(x := w.x, y := w.y, visible := w.visible, layer := w.layer)
    ensures w.WellShaped()
  {
    assert forall r: nat | r < v.height :: w.LeftMargin(r) == v.LeftMargin(r) && w.RightMargin(r) == v.RightMargin(r);
    assert forall r: nat | r < v.height :: w.LeftEdgeClearOn(r) == v.LeftEdgeClearOn(r);
  }

  function Footprint(v: View): Rect {
    Rect(v.x, v.y, v.x + v.width, v.y + v.height)
  }

  ghost function Within(rect: Rect): Region {
    iset p: (int, int) | rect.Contains(p.0, p.1)
  }

  /** The pixels that show a solid part of one of the k lowest displays, or a translucent part of any. */
  ghost function Beneath(vs: seq<View>, k: int): Region
    requires AllShaped(vs)
  {
    iset p: (int, int) |
      (exists i | 0 <= i < k :: IsTop(vs, i, p.0, p.1) && vs[i].SolidAt(p.0, p.1)) || TransparentTop(vs, p.0, p.1)
  }

  lemma BothPasses(vs: seq<View>, rect: Rect, k: int)
    requires AllShaped(vs)
    ensures SolidBelow(vs, rect, k) + TranslucentIn(vs, rect) == Within(rect) * Beneath(vs, k)
  {
  }

  /** A covered pixel that is neither beneath display i nor translucent shows a solid part of display i or above. */
  lemma NotBeneath(vs: seq<View>, i: int, X: int, Y: int) returns (t: int)
    requires AllShaped(vs) && Covered(vs, X, Y) && (X, Y) !in Beneath(vs, i)
    ensures t >= i && IsTop(vs, t, X, Y) && vs[t].SolidAt(X, Y)
  {
    t := TopExists(vs, X, Y);
  }

  /** A hidden display changes nothing wherever it is put. */
  lemma InsertHidden(a: seq<View>, v: View, b: seq<View>, strip: int -> Pixel, g: Pixels)
    requires AllShaped(a + b) && AllShaped(a + [v] + b) && v.WellFormed() && !v.visible
    requires Right(a + b, strip, g)
    ensures Right(a + [v] + b, strip, g)
  {
    forall Y, X | Covered(a + [v] + b, X, Y)
      ensures Covered(a + b, X, Y) && Composite(a + [v] + b, X, Y, strip(Y)) == Composite(a + b, X, Y, strip(Y))
    {
      StillCovered(a, v, b, X, Y);
      SkipNonCovering(a, v, b, X, Y, strip(Y));
    }
  }

  lemma StillCovered(a: seq<View>, v: View, b: seq<View>, X: int, Y: int)
    requires AllShaped(a + b) && AllShaped(a + [v] + b) && v.WellFormed() && !v.Covers(X, Y)
    ensures Covered(a + [v] + b, X, Y) <==> Covered(a + b, X, Y)
  {
    var vs, ws := a + [v] + b, a + b;
    if Covered(vs, X, Y) {
      var t :| 0 <= t < |vs| && vs[t].Covers(X, Y);
      assert ws[if t < |a| then t else t - 1].Covers(X, Y);
    }
    if Covered(ws, X, Y) {
      var t :| 0 <= t < |ws| && ws[t].Covers(X, Y);
      assert vs[if t < |a| then t else t + 1].Covers(X, Y);
    }
  }

  /** A destroyed display leaves only its rectangle to be repainted. */
  lemma DestroyRepairs(vs: seq<View>, ws: seq<View>, strip: int -> Pixel, g: Pixels, h: Pixels, i: nat)
    requires AllShaped(vs) && AllShaped(ws) && i < |vs| && ws == vs[..i] + vs[i + 1..]
    requires Right(vs, strip, g) && Redrawn(ws, strip, g, h, Within(Footprint(vs[i])) * Beneath(ws, |ws|))
    ensures Right(ws, strip, h)
  {
    var region := Within(Footprint(vs[i])) * Beneath(ws, |ws|);
    var a, v, b := vs[..i], vs[i], vs[i + 1..];
    assert vs == a + [v] + b;
    forall Y, X | Covered(ws, X, Y) && (X, Y) !in region
      ensures Same(vs, ws, strip, X, Y)
    {
      if v.Covers(X, Y) {
        var t := NotBeneath(ws, |ws|, X, Y);
        assert false;
      }
      StillCovered(a, v, b, X, Y);
      SkipNonCovering(a, v, b, X, Y, strip(Y));
    }
    Repaired(vs, ws, strip, g, h, region, iset{});
  }

  lemma HideRepairs(vs: seq<View>, ws: seq<View>, strip: int -> Pixel, g: Pixels, h: Pixels, i: int)
    requires AllShaped(vs) && AllShaped(ws) && 0 <= i < |vs| && ws == vs[i := vs[i].(visible := false)]
    requires Right(vs, strip, g) && Redrawn(ws, strip, g, h, Within(Footprint(ws[i])) * Beneath(ws, i))
    ensures Right(ws, strip, h)
  {
    var region := Within(Footprint(ws[i])) * Beneath(ws, i);
    forall Y, X | Covered(ws, X, Y) && (X, Y) !in region
      ensures Same(vs, ws, strip, X, Y)
    {
      if vs[i].Covers(X, Y) {
        var t := NotBeneath(ws, i, X, Y);
      }
      OneChanged(vs, ws, strip, i, X, Y);
    }
    Repaired(vs, ws, strip, g, h, region, iset{});
  }

  lemma ShowRepairs(vs: seq<View>, ws: seq<View>, strip: int -> Pixel, g: Pixels, h: Pixels, i: int)
    requires AllShaped(vs) && AllShaped(ws) && 0 <= i < |vs| && ws == vs[i := vs[i].(visible := true)]
    requires !vs[i].visible
    requires Right(vs, strip, g)
      && Redrawn(ws, strip, g, h, SolidRegion(ws, i, ws[i].solid) + TranslucentIn(ws, Footprint(ws[i])))
    ensures Right(ws, strip, h)
  {
    var region := SolidRegion(ws, i, ws[i].solid) + TranslucentIn(ws, Footprint(ws[i]));
    forall Y, X | Covered(ws, X, Y) && (X, Y) !in region
      ensures Same(vs, ws, strip, X, Y)
    {
      ShownPixel(vs, ws, strip, i, X, Y);
    }
    Repaired(vs, ws, strip, g, h, region, iset{});
  }

  lemma ShownPixel(vs: seq<View>, ws: seq<View>, strip: int -> Pixel, i: int, X: int, Y: int)
    requires AllShaped(vs) && AllShaped(ws) && 0 <= i < |vs| && ws == vs[i := vs[i].(visible := true)] && !vs[i].visible
    requires Covered(ws, X, Y) && (X, Y) !in SolidRegion(ws, i, ws[i].solid) + TranslucentIn(ws, Footprint(ws[i]))
    ensures Same(vs, ws, strip, X, Y)
  {
    if ws[i].Covers(X, Y) {
      var t := HiddenUnder(ws, i, X, Y);
    }
    OneChanged(vs, ws, strip, i, X, Y);
  }

  /** Where display i reaches but its own repainting leaves the pixel alone, a solid part of a
      display above it shows. */
  lemma HiddenUnder(ws: seq<View>, i: int, X: int, Y: int) returns (t: int)
    requires AllShaped(ws) && 0 <= i < |ws| && ws[i].Covers(X, Y)
    requires (X, Y) !in SolidRegion(ws, i, ws[i].solid) && (X, Y) !in TranslucentIn(ws, Footprint(ws[i]))
    ensures t > i && IsTop(ws, t, X, Y) && ws[t].SolidAt(X, Y)
  {
    t := TopExists(ws, X, Y);
    assert Footprint(ws[i]).Contains(X, Y);
    assert ws[t].SolidAt(X, Y);
  }

  /** With nothing repainted, only pixels the changed display now reaches can be wrong. */
  lemma OutsideIsSame(vs: seq<View>, ws: seq<View>, strip: int -> Pixel, g: Pixels, i: int)
    requires AllShaped(vs) && AllShaped(ws) && 0 <= i < |vs| && ws == vs[i := vs[i].(visible := true)]
    requires Right(vs, strip, g)
    ensures RightOutside(ws, strip, g, Within(Footprint(ws[i])))
  {
    RedrawnNothing(ws, strip, g);
    forall Y, X | Covered(ws, X, Y) && (X, Y) !in Within(Footprint(ws[i]))
      ensures Same(vs, ws, strip, X, Y)
    {
      OneChanged(vs, ws, strip, i, X, Y);
    }
    Repaired(vs, ws, strip, g, g, iset{}, Within(Footprint(ws[i])));
  }

  /** Every pixel the moved display reaches or reached that has to be repainted is in the region. */
  ghost predicate MoveCovered(vs: seq<View>, ws: seq<View>, i: int, screen: Rect, region: Region, update: bool)
    requires AllShaped(vs) && AllShaped(ws) && 0 <= i < |vs| == |ws|
  {
    forall X, Y | screen.Contains(X, Y) && (X, Y) !in region ::
      && (vs[i].Covers(X, Y) && !Footprint(ws[i]).Contains(X, Y) ==> (X, Y) !in Beneath(ws, i))
      && (update && vs[i].visible && Footprint(ws[i]).Contains(X, Y) ==> (X, Y) !in Beneath(ws, i + 1))
  }

  lemma MoveRegion(vs: seq<View>, ws: seq<View>, i: int, screen: Rect, cover: Region, region: Region, update: bool)
    requires AllShaped(vs) && AllShaped(ws) && 0 <= i < |vs| == |ws|
    requires forall X, Y |
      Footprint(vs[i]).Contains(X, Y) && screen.Contains(X, Y) && !Footprint(ws[i]).Contains(X, Y) :: (X, Y) in cover
    requires region == cover * Beneath(ws, i) + if update then Within(Footprint(ws[i])) * Beneath(ws, i + 1) else iset{}
    ensures MoveCovered(vs, ws, i, screen, region, update)
  {
  }

  lemma MoveRepairs(vs: seq<View>, ws: seq<View>, strip: int -> Pixel, g: Pixels, h: Pixels,
                    i: int, screen: Rect, region: Region, update: bool)
    requires AllShaped(vs) && AllShaped(ws) && 0 <= i < |vs| == |ws|
      && ws == vs[i := vs[i].(x := ws[i].x, y := ws[i].y)]
    requires screen.x1 == screen.y1 == 0 && |g| == screen.y2 && forall Y | 0 <= Y < |g| :: |g[Y]| == screen.x2
    requires MoveCovered(vs, ws, i, screen, region, update)
    requires Right(vs, strip, g) && Redrawn(ws, strip, g, h, region)
    ensures RightOutside(ws, strip, h, if update then iset{} else Within(Footprint(ws[i])))
  {
    var hole: Region := if update then iset{} else Within(Footprint(ws[i]));
    forall Y, X | 0 <= Y < |g| && 0 <= X < |g[Y]| && Covered(ws, X, Y) && (X, Y) !in hole && (X, Y) !in region
      ensures Same(vs, ws, strip, X, Y)
    {
      if vs[i].Covers(X, Y) || ws[i].Covers(X, Y) {
        var t := NotBeneath(ws, if Footprint(ws[i]).Contains(X, Y) then i + 1 else i, X, Y);
      }
      OneChanged(vs, ws, strip, i, X, Y);
    }
    Repaired(vs, ws, strip, g, h, region, hole);
  }

  /** Element i moved up to position j. */
  function Lift<T>(s: seq<T>, i: nat, j: nat): seq<T>
    requires i <= j < |s|
  {
    s[..i] + s[i + 1..j + 1] + [s[i]] + s[j + 1..]
  }

  lemma LiftElements<T>(s: seq<T>, i: nat, j: nat)
    requires i <= j < |s|
    ensures |Lift(s, i, j)| == |s|
    ensures forall k | 0 <= k < |s| :: Lift(s, i, j)[k] == s[if k < i || k > j then k else if k == j then i else k + 1]
    ensures var others := s[..i] + s[i + 1..]; Lift(s, i, j) == others[..j] + [s[i]] + others[j..]
    ensures i == j ==> Lift(s, i, j) == s
  {
  }

  ghost predicate LayersSorted(vs: seq<View>) {
    forall i, j | 0 <= i < j < |vs| :: vs[i].layer <= vs[j].layer
  }

  lemma LiftSorted(vs: seq<View>, i: nat, j: nat)
    requires i < j < |vs|
    requires vs[j].layer <= vs[i].layer && forall l | j < l < |vs| :: vs[l].layer > vs[i].layer
    ensures LayersSorted(vs) ==> LayersSorted(Lift(vs, i, j))
  {
  }

  lemma RaiseRepairs(vs: seq<View>, ws: seq<View>, strip: int -> Pixel, g: Pixels, h: Pixels, i: nat, j: nat)
    requires AllShaped(vs) && AllShaped(ws) && i <= j < |vs| == |ws| && ws == Lift(vs, i, j)
    requires Right(vs, strip, g)
      && Redrawn(ws, strip, g, h, SolidRegion(ws, j, ws[j].solid) + TranslucentIn(ws, Footprint(ws[j])))
    ensures Right(ws, strip, h)
  {
    var region := SolidRegion(ws, j, ws[j].solid) + TranslucentIn(ws, Footprint(ws[j]));
    var a, v, b, c := vs[..i], vs[i], vs[i + 1..j + 1], vs[j + 1..];
    assert vs == a + [v] + b + c && ws == a + b + [v] + c && ws[j] == v && |a + b| == j;
    forall Y, X | Covered(ws, X, Y) && (X, Y) !in region
      ensures Same(vs, ws, strip, X, Y)
    {
      RaisedPixel(a, v, b, c, strip, X, Y);
    }
    Repaired(vs, ws, strip, g, h, region, iset{});
  }

  lemma RaisedPixel(a: seq<View>, v: View, b: seq<View>, c: seq<View>, strip: int -> Pixel, X: int, Y: int)
    requires AllShaped(a + [v] + b + c) && AllShaped(a + b + [v] + c) && v.WellFormed()
    requires var ws := a + b + [v] + c;
      Covered(ws, X, Y) && (X, Y) !in SolidRegion(ws, |a + b|, v.solid) + TranslucentIn(ws, Footprint(v))
    ensures Same(a + [v] + b + c, a + b + [v] + c, strip, X, Y)
  {
    if v.Covers(X, Y) {
      var ws := a + b + [v] + c;
      assert ws[|a + b|] == v;
      var t := HiddenUnder(ws, |a + b|, X, Y);
      RaisedBeneath(a, v, b, c, strip, t, X, Y);
    } else {
      RaisedElsewhere(a, v, b, c, strip, X, Y);
    }
  }

  /** The pixels of a screen rectangle that show a translucent part of some display. */
  ghost function TranslucentIn(vs: seq<View>, rect: Rect): Region
    requires AllShaped(vs)
  {
    iset p: (int, int) | rect.Contains(p.0, p.1) && TransparentTop(vs, p.0, p.1)
  }

  lemma PixelRedrawn(vs: seq<View>, strip: int -> Pixel, g: Pixels, h: Pixels, k: Pixels, Y: int, from: int, x: int)
    requires AllShaped(vs) && 0 <= Y < |h| && 0 <= x < |h[Y]| && from <= x
    requires Redrawn(vs, strip, g, h, Stretch(Y, from, x))
    requires Covered(vs, x, Y) && SameSize(h, k)
    requires forall Y', X | 0 <= Y' < |h| && 0 <= X < |h[Y']| ::
      k[Y'][X] == if Y' == Y && X == x then Composite(vs, x, Y, strip(Y)) else h[Y'][X]
    ensures Redrawn(vs, strip, g, k, Stretch(Y, from, x + 1))
  {
  }

  lemma TranslucentRows(vs: seq<View>, rect: Rect, Y: int)
    requires AllShaped(vs) && rect.y1 <= Y
    ensures TranslucentIn(vs, rect.(y2 := Y)) + TranslucentIn(vs, Rect(rect.x1, Y, rect.x2, Y + 1))
      == TranslucentIn(vs, rect.(y2 := Y + 1))
  {
  }

  lemma TranslucentOnScreen(vs: seq<View>, strip: int -> Pixel, g: Pixels, h: Pixels, r: Rect, screen: Rect, Y: int)
    requires AllShaped(vs)
    requires screen.x1 == screen.y1 == 0 && |g| == screen.y2 && forall Y | 0 <= Y < |g| :: |g[Y]| == screen.x2
    requires var c := r.Intersect(screen);
      Y >= c.y2 && (Y == c.y1 || Y == c.y2) && Redrawn(vs, strip, g, h, TranslucentIn(vs, c.(y2 := Y)))
    ensures Redrawn(vs, strip, g, h, TranslucentIn(vs, r))
  {
  }

  /** A section is translucent throughout or nowhere. */
  lemma SectionRedrawn(vs: seq<View>, strip: int -> Pixel, g: Pixels, h: Pixels, k: Pixels, x1: int, Y: int, scanX: int,
                       display: int, nextX: int, isTransparent: bool)
    requires AllShaped(vs) && NONE <= display < |vs| && x1 <= scanX <= nextX
    requires Section(vs, scanX, Y, display, nextX)
    requires display != NONE ==> isTransparent == !vs[display].SolidAt(scanX, Y)
    requires Redrawn(vs, strip, g, h, TranslucentIn(vs, Rect(x1, Y, scanX, Y + 1)))
    requires if display != NONE && isTransparent then Redrawn(vs, strip, h, k, Stretch(Y, scanX, nextX)) else k == h
    ensures Redrawn(vs, strip, g, k, TranslucentIn(vs, Rect(x1, Y, nextX, Y + 1)))
  {
    var region := TranslucentIn(vs, Rect(x1, Y, scanX, Y + 1));
    if display != NONE && isTransparent {
      RedrawnAgain(vs, strip, g, h, k, region, Stretch(Y, scanX, nextX));
      region := region + Stretch(Y, scanX, nextX);
    }
    SectionRegion(vs, x1, Y, scanX, display, nextX, isTransparent);
    RedrawnSame(vs, strip, g, k, region, TranslucentIn(vs, Rect(x1, Y, nextX, Y + 1)));
  }

  lemma SectionRegion(vs: seq<View>, x1: int, Y: int, scanX: int, display: int, nextX: int, isTransparent: bool)
    requires AllShaped(vs) && NONE <= display < |vs| && x1 <= scanX <= nextX
    requires Section(vs, scanX, Y, display, nextX)
    requires display != NONE ==> isTransparent == !vs[display].SolidAt(scanX, Y)
    ensures var region := TranslucentIn(vs, Rect(x1, Y, scanX, Y + 1));
      var wider := if display != NONE && isTransparent then region + Stretch(Y, scanX, nextX) else region;
      forall X, Y' | Covered(vs, X, Y') :: (X, Y') in wider <==> (X, Y') in TranslucentIn(vs, Rect(x1, Y, nextX, Y + 1))
  {
    var region := TranslucentIn(vs, Rect(x1, Y, scanX, Y + 1));
    var wider := if display != NONE && isTransparent then region + Stretch(Y, scanX, nextX) else region;
    forall X, Y' | Covered(vs, X, Y')
      ensures (X, Y') in wider <==> (X, Y') in TranslucentIn(vs, Rect(x1, Y, nextX, Y + 1))
    {
      if Y' == Y && scanX <= X < nextX {
        assert display != NONE && IsTop(vs, display, X, Y);
      }
    }
  }

  /** Where the solid or translucent section that a display shows at x ends on row Y. */
  function SectionRight(v: View, x: int, Y: int, x2: int): int
    requires v.WellFormed() && v.Covers(x, Y)
  {
    var dx, dy := x - v.x, Y - v.y;
    var right :=
      if dy < v.solid.y1 || dy >= v.solid.y2 then x2
      else if v.solid.x1 > 0 && dx < v.solid.x1 then v.x + v.solid.x1
      else if dx < v.solid.x2 then v.x + v.solid.x2
      else v.x + v.width;
    Clamp(right, v.Left(Y), v.Right(Y))
  }

  lemma SectionIsUniform(v: View, x: int, Y: int, x2: int)
    requires v.WellShaped() && v.Covers(x, Y) && x < x2
    ensures x < SectionRight(v, x, Y, x2)
    ensures forall X | x <= X < SectionRight(v, x, Y, x2) :: v.Covers(X, Y) && v.SolidAt(X, Y) == v.SolidAt(x, Y)
  {
  }

  /** Seen from x, where the nearest section of a display that ends right of x starts, and whether
      that section is translucent. */
  function SectionAhead(v: View, x: int, Y: int): (int, bool)
    requires v.WellFormed() && v.HasRow(Y)
  {
    var dx, dy := x - v.x, Y - v.y;
    if dy < v.solid.y1 || dy >= v.solid.y2 then (v.Left(Y), true)
    else if v.solid.x1 > 0 && dx < v.solid.x1 then (v.Left(Y), true)
    else if dx < v.solid.x2 then (Max(v.Left(Y), v.x + v.solid.x1), false)
    else (Max(v.Left(Y), v.x + v.solid.x2), true)
  }

  /** What is said about the display's nearest section is true: at x itself if the display reaches it,
      and otherwise where the display starts. */
  ghost predicate AheadRight(v: View, x: int, Y: int)
    requires v.WellFormed() && v.visible && v.HasRow(Y)
  {
    var (left, transparent) := SectionAhead(v, x, Y);
    if v.Covers(x, Y) then left <= x && transparent == !v.SolidAt(x, Y)
    else left > x && left == v.Left(Y) && v.Covers(left, Y) && transparent == !v.SolidAt(left, Y)
  }

  lemma AheadIsRight(v: View, x: int, Y: int)
    requires v.WellFormed() && v.visible && v.HasRow(Y) && x < v.Right(Y) && v.Left(Y) < v.Right(Y)
    requires v.LeftEdgeClearOn(Y - v.y)
    ensures AheadRight(v, x, Y)
  {
  }

  /** Seen from everywhere the search is right about a display's row exactly if its left edge is clear. */
  lemma AheadIsRightIff(v: View, Y: int)
    requires v.WellFormed() && v.visible && v.HasRow(Y) && v.Left(Y) < v.Right(Y)
    ensures (forall x | x < v.Right(Y) :: AheadRight(v, x, Y)) <==> v.LeftEdgeClearOn(Y - v.y)
  {
    if v.LeftEdgeClearOn(Y - v.y) {
      forall x | x < v.Right(Y) ensures AheadRight(v, x, Y) {
        AheadIsRight(v, x, Y);
      }
    } else if v.solid.x1 <= 0 {
      assert !AheadRight(v, v.x + Min(v.solid.x2, v.LeftMargin(Y - v.y)) - 1, Y);
    } else if v.LeftMargin(Y - v.y) < v.solid.x2 && v.solid.x1 <= v.LeftMargin(Y - v.y) {
      assert !AheadRight(v, v.x + v.solid.x1 - 1, Y);
    } else {
      assert !AheadRight(v, v.x + v.solid.x1, Y);
    }
  }

  /** A solid area cropped to no width at all starts at column 0 and has rows: seen from the left, the
      translucent edge of the display is taken for solid there. */
  lemma CollapsedSolidArea(v: View, Y: int)
    requires v.WellFormed() && v.visible && v.HasRow(Y) && v.Left(Y) < v.Right(Y)
    requires v.solid.x1 == v.solid.x2 == 0 && v.solid.y1 <= Y - v.y < v.solid.y2
    ensures !v.SolidAt(v.Left(Y), Y) && SectionAhead(v, v.x - 1, Y) == (v.Left(Y), false)
  {
  }

  /** Of the displays above k none reaches x, and the nearest section of theirs that starts before
      `limit` is the one found. */
  ghost predicate Searched(vs: seq<View>, x: int, Y: int, limit: int, k: int, found: int, foundLeft: int,
                           isTransparent: bool)
    requires AllShaped(vs)
  {
    && x < foundLeft <= limit && NONE <= k < |vs| && NONE <= found < |vs|
    && (forall j | k < j < |vs| :: !vs[j].Covers(x, Y))
    && (forall X, j | x <= X < foundLeft && k < j < |vs| :: !vs[j].Covers(X, Y))
    && if found == NONE then foundLeft == limit
       else
         && k < found && foundLeft < limit && IsTop(vs, found, foundLeft, Y)
         && isTransparent == !vs[found].SolidAt(foundLeft, Y)
  }

  lemma SearchStep(vs: seq<View>, x: int, Y: int, limit: int, k: int, found: int, foundLeft: int, isTransparent: bool)
    requires AllShaped(vs) && 0 <= k && Searched(vs, x, Y, limit, k, found, foundLeft, isTransparent)
    ensures var v := vs[k];
      if !(v.visible && v.HasRow(Y) && v.Right(Y) > x) then
        Searched(vs, x, Y, limit, k - 1, found, foundLeft, isTransparent)
      else
        var (left, transparent) := SectionAhead(v, x, Y);
        if left <= x then IsTop(vs, k, x, Y) && transparent == !v.SolidAt(x, Y)
        else if left < foundLeft then Searched(vs, x, Y, limit, k - 1, k, left, transparent)
        else Searched(vs, x, Y, limit, k - 1, found, foundLeft, isTransparent)
  {
    var v := vs[k];
    if v.visible && v.HasRow(Y) && v.Right(Y) > x {
      AheadIsRight(v, x, Y);
    }
  }

  /** Over [x, next) the row shows one section of `current`, or nothing at all. */
  ghost predicate Section(vs: seq<View>, x: int, Y: int, current: int, next: int)
    requires AllShaped(vs) && (current == NONE || 0 <= current < |vs|)
  {
    if current == NONE then forall X | x <= X < next :: !Covered(vs, X, Y)
    else forall X | x <= X < next :: IsTop(vs, current, X, Y) && vs[current].SolidAt(X, Y) == vs[current].SolidAt(x, Y)
  }

  ghost function Ceiling(vs: seq<View>, below: int): int {
    if below == NONE then |vs| else below
  }

  /** The pixels of a screen rectangle that show a solid part of one of the k lowest displays. */
  ghost function SolidBelow(vs: seq<View>, rect: Rect, k: int): Region
    requires AllShaped(vs)
  {
    iset p: (int, int) |
      rect.Contains(p.0, p.1) && exists i | 0 <= i < k :: IsTop(vs, i, p.0, p.1) && vs[i].SolidAt(p.0, p.1)
  }

  /** The next display up adds its own solid pixels to what has been repainted. */
  lemma LayerRedrawn(vs: seq<View>, strip: int -> Pixel, g: Pixels, h: Pixels, k: Pixels, rect: Rect, i: int)
    requires AllShaped(vs) && 0 <= i < |vs|
    requires Redrawn(vs, strip, g, h, SolidBelow(vs, rect, i))
    requires Redrawn(vs, strip, h, k, SolidRegion(vs, i, rect.Offset(-vs[i].x, -vs[i].y).Intersect(vs[i].solid)))
    ensures Redrawn(vs, strip, g, k, SolidBelow(vs, rect, i + 1))
  {
    var own := rect.Offset(-vs[i].x, -vs[i].y).Intersect(vs[i].solid);
    RedrawnAgain(vs, strip, g, h, k, SolidBelow(vs, rect, i), SolidRegion(vs, i, own));
    forall X, Y
      ensures (X, Y) in SolidBelow(vs, rect, i) + SolidRegion(vs, i, own) <==> (X, Y) in SolidBelow(vs, rect, i + 1)
    {
      IntersectContains(rect.Offset(-vs[i].x, -vs[i].y), vs[i].solid, X - vs[i].x, Y - vs[i].y);
    }
    RedrawnSame(vs, strip, g, k, SolidBelow(vs, rect, i) + SolidRegion(vs, i, own), SolidBelow(vs, rect, i + 1));
  }

  /** The solid pass over the k lowest displays, then everything translucent. */
  lemma UnderRedrawn(vs: seq<View>, strip: int -> Pixel, g: Pixels, solid: Pixels, h: Pixels, rect: Rect, k: int)
    requires AllShaped(vs)
    requires Redrawn(vs, strip, g, solid, SolidBelow(vs, rect, k))
    requires Redrawn(vs, strip, solid, h, TranslucentIn(vs, rect))
    ensures Redrawn(vs, strip, g, h, Within(rect) * Beneath(vs, k))
  {
    RedrawnAgain(vs, strip, g, solid, h, SolidBelow(vs, rect, k), TranslucentIn(vs, rect));
    BothPasses(vs, rect, k);
  }

  /** The pixels that show a solid part of display i, within a rectangle of that display. */
  ghost function SolidRegion(vs: seq<View>, i: int, r: Rect): Region
    requires AllShaped(vs) && 0 <= i < |vs|
  {
    iset p: (int, int) | r.Contains(p.0 - vs[i].x, p.1 - vs[i].y) && IsTop(vs, i, p.0, p.1) && vs[i].SolidAt(p.0, p.1)
  }

  /** The rectangle the solid pass really walks: clipped to the solid area and the screen. */
  function Clipped(v: View, r: Rect, screen: Rect): Rect {
    r.Intersect(v.solid).Offset(v.x, v.y).Intersect(screen).Offset(-v.x, -v.y)
  }

  lemma ClippedRow(v: View, r: Rect, screen: Rect, y: int)
    requires v.WellShaped() && Clipped(v, r, screen).y1 <= y < Clipped(v, r, screen).y2
    ensures 0 <= y < v.height && screen.y1 <= v.y + y < screen.y2
    ensures var c := Clipped(v, r, screen);
      c.x1 < c.x2 ==> screen.x1 <= v.x + c.x1 && v.x + c.x2 <= screen.x2 && v.solid.x1 <= c.x1 && c.x2 <= v.solid.x2
    ensures v.solid.y1 <= y < v.solid.y2
  {
  }

  lemma SolidRegionRow(vs: seq<View>, i: int, rect: Rect, y: int, x1: int, x2: int, spans: seq<(int, int)>)
    requires AllShaped(vs) && 0 <= i < |vs| && vs[i].visible && 0 <= y < vs[i].height
    requires rect.y1 <= y < rect.y2
    requires x1 == Max(rect.x1, vs[i].LeftMargin(y)) && x2 == Min(rect.x2, vs[i].width - vs[i].RightMargin(y))
    requires SolidOn(vs, i, vs[i].y + y, vs[i].x + x1, vs[i].x + x2)
    requires RowScan(vs, i, vs[i].y + y, vs[i].x + x1, vs[i].x + x2, spans)
    ensures SpanRegion(spans, vs[i].y + y) == SolidRegion(vs, i, rect.(y1 := y, y2 := y + 1))
  {
  }

  /** In a rectangle of display i exactly its pixels that show have been redrawn, and written once. */
  ghost predicate AreaPainted(vs: seq<View>, strip: int -> Pixel, g: Pixels, h: Pixels, before: Writes, after: Writes,
                              i: int, rect: Rect)
    requires AllShaped(vs) && 0 <= i < |vs|
  {
    Redrawn(vs, strip, g, h, SolidRegion(vs, i, rect)) && WrittenOnce(before, after, SolidRegion(vs, i, rect))
  }

  /** One more row joins the rows painted so far. */
  lemma RowJoins(vs: seq<View>, strip: int -> Pixel, g: Pixels, h: Pixels, k: Pixels,
                 first: Writes, second: Writes, third: Writes, i: int, rect: Rect, y: int)
    requires AllShaped(vs) && 0 <= i < |vs| && rect.y1 <= y
    requires AreaPainted(vs, strip, g, h, first, second, i, rect.(y2 := y))
    requires AreaPainted(vs, strip, h, k, second, third, i, rect.(y1 := y, y2 := y + 1))
    ensures AreaPainted(vs, strip, g, k, first, third, i, rect.(y2 := y + 1))
  {
  }

  /** Clipping to the solid area and the screen leaves out nothing that could be painted. */
  lemma ClippedPainted(vs: seq<View>, strip: int -> Pixel, g: Pixels, h: Pixels, before: Writes, after: Writes,
                       i: int, r: Rect, screen: Rect, y: int)
    requires AllShaped(vs) && 0 <= i < |vs|
    requires screen.x1 == screen.y1 == 0 && |g| == screen.y2 && forall Y | 0 <= Y < |g| :: |g[Y]| == screen.x2
    requires var c := Clipped(vs[i], r, screen);
      y >= c.y2 && (y == c.y1 || y == c.y2) && AreaPainted(vs, strip, g, h, before, after, i, c.(y2 := y))
    ensures Redrawn(vs, strip, g, h, SolidRegion(vs, i, r))
    ensures WrittenOnce(before, after, SolidRegion(vs, i, r) * Within(screen))
  {
    assert SolidRegion(vs, i, Clipped(vs[i], r, screen).(y2 := y)) == SolidRegion(vs, i, r) * Within(screen);
  }

  ghost predicate SpanCopied(g: Pixels, h: Pixels, row: seq<Pixel>, x: int, Y: int, from: int, to: int)
    requires 0 <= from <= to <= |row|
  {
    SameSize(g, h) && forall Y', X | 0 <= Y' < |g| && 0 <= X < |g[Y']| ::
      h[Y'][X] == if Y' == Y && x + from <= X < x + to then row[X - x] else g[Y'][X]
  }

  /** Copying a stretch of a display that nothing hides puts composite values on the screen. */
  lemma SpanIsRedrawn(vs: seq<View>, strip: int -> Pixel, g: Pixels, h: Pixels, i: int, y: nat, from: int, to: int)
    requires AllShaped(vs) && 0 <= i < |vs| && y < vs[i].height && 0 <= from <= to <= vs[i].width
    requires SolidOn(vs, i, vs[i].y + y, vs[i].x + from, vs[i].x + to)
    requires NoneHidden(vs, i, vs[i].y + y, vs[i].x + from, vs[i].x + to)
    requires SpanCopied(g, h, vs[i].rows[y], vs[i].x, vs[i].y + y, from, to)
    ensures Redrawn(vs, strip, g, h, Stretch(vs[i].y + y, vs[i].x + from, vs[i].x + to))
  {
    ghost var Y := vs[i].y + y;
    forall X | vs[i].x + from <= X < vs[i].x + to
      ensures Covered(vs, X, Y) && Composite(vs, X, Y, strip(Y)) == vs[i].rows[y][X - vs[i].x]
    {
      assert !HiddenBy(vs, i, X, Y);
      SolidTopValue(vs, i, X, Y, strip(Y));
    }
  }

  /** The copies made so far: in ascending disjoint stretches, exactly what shows of the row in [lo, hi). */
  ghost predicate RowScan(vs: seq<View>, i: int, Y: int, lo: int, hi: int, spans: seq<(int, int)>)
    requires AllShaped(vs)
  {
    && SpansAscend(spans, hi)
    && forall X :: InSpans(spans, X) <==> Shows(vs, i, Y, lo, hi, X)
  }

  /** Of the row's columns [lo, hi) exactly what shows has been redrawn, and has been written once. */
  ghost predicate RowPainted(vs: seq<View>, strip: int -> Pixel, g: Pixels, h: Pixels, before: Writes, after: Writes,
                             i: int, Y: int, lo: int, hi: int, spans: seq<(int, int)>)
    requires AllShaped(vs)
  {
    && RowScan(vs, i, Y, lo, hi, spans)
    && Redrawn(vs, strip, g, h, SpanRegion(spans, Y))
    && WrittenOnce(before, after, SpanRegion(spans, Y))
  }

  lemma RowUntouched(vs: seq<View>, strip: int -> Pixel, g: Pixels, writes: Writes, i: int, Y: int, lo: int, hi: int)
    requires AllShaped(vs) && hi <= lo
    ensures RowPainted(vs, strip, g, g, writes, writes, i, Y, lo, hi, [])
  {
    assert SpanRegion([], Y) == iset{};
  }

  lemma RoundPainted(vs: seq<View>, strip: int -> Pixel, g: Pixels, h: Pixels, k: Pixels,
                     first: Writes, second: Writes, third: Writes, i: int, Y: int,
                     lo: int, start: int, end: int, visible: int, stop: int, next: int, spans: seq<(int, int)>)
    returns (more: seq<(int, int)>)
    requires AllShaped(vs) && lo <= start < end
    requires start <= visible && stop <= end
    requires AllHidden(vs, i, Y, start, visible) && NoneHidden(vs, i, Y, visible, stop)
    requires AllHidden(vs, i, Y, stop, next)
    requires if next <= stop then stop == end else start < next
    requires RowPainted(vs, strip, g, h, first, second, i, Y, lo, start, spans)
    requires Redrawn(vs, strip, h, k, Stretch(Y, visible, stop))
    requires WrittenOnce(second, third, Stretch(Y, visible, stop))
    ensures RowPainted(vs, strip, g, k, first, third, i, Y, lo, Min(if next > stop then next else end, end), more)
  {
    more := RowScanStep(vs, i, Y, lo, start, end, visible, stop, next, spans);
    RedrawnAgain(vs, strip, g, h, k, SpanRegion(spans, Y), Stretch(Y, visible, stop));
    WrittenAgain(first, second, third, SpanRegion(spans, Y), Stretch(Y, visible, stop));
  }

  lemma RowScanStep(vs: seq<View>, i: int, Y: int, first: int, start: int, end: int, visible: int, stop: int, next: int,
                    spans: seq<(int, int)>)
    returns (more: seq<(int, int)>)
    requires AllShaped(vs) && first <= start < end
    requires start <= visible && stop <= end
    requires AllHidden(vs, i, Y, start, visible) && NoneHidden(vs, i, Y, visible, stop)
    requires AllHidden(vs, i, Y, stop, next)
    requires if next <= stop then stop == end else start < next
    requires RowScan(vs, i, Y, first, start, spans)
    ensures RowScan(vs, i, Y, first, Min(if next > stop then next else end, end), more)
    ensures SpanRegion(more, Y) == SpanRegion(spans, Y) + Stretch(Y, visible, stop)
    ensures SpanRegion(spans, Y) !! Stretch(Y, visible, stop)
  {
    ShowsStep(vs, i, Y, first, start, end, visible, stop, next);
    if visible < stop {
      more := spans + [(visible, stop)];
      SpansExtend(spans, visible, stop, start);
    } else {
      more := spans;
    }
  }

  lemma SpansExtend(spans: seq<(int, int)>, lo: int, hi: int, bound: int)
    requires bound <= lo < hi && SpansAscend(spans, bound)
    ensures forall x :: InSpans(spans + [(lo, hi)], x) <==> InSpans(spans, x) || lo <= x < hi
    ensures SpansAscend(spans + [(lo, hi)], hi)
  {
    var more := spans + [(lo, hi)];
    forall x ensures InSpans(more, x) <==> InSpans(spans, x) || lo <= x < hi {
      if InSpans(spans, x) {
        var k :| 0 <= k < |spans| && spans[k].0 <= x < spans[k].1;
        assert more[k].0 <= x < more[k].1;
      }
      if lo <= x < hi {
        assert more[|spans|].0 <= x < more[|spans|].1;
      }
    }
  }
}
