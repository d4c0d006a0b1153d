/** What painting may do to the pixels of the screen, as a relation between two screenfuls. */
module Screen {
  import opened View

  type Pixels = seq<seq<Pixel>>

  /** Screen positions. */
  type Region = iset<(int, int)>

  predicate SameSize(g: Pixels, h: Pixels) {
    |g| == |h| && forall Y | 0 <= Y < |g| :: |g[Y]| == |h[Y]|
  }

  /** Painting h over g: a covered pixel gets its composite value inside `region` and is left
      alone outside it, and an uncovered pixel can only become background. */
  ghost predicate Redrawn(vs: seq<View>, strip: int -> Pixel, g: Pixels, h: Pixels, region: Region)
    requires AllShaped(vs)
  {
    && SameSize(g, h)
    && forall Y, X | 0 <= Y < |g| && 0 <= X < |g[Y]| ::
         if Covered(vs, X, Y)
         then h[Y][X] == if (X, Y) in region then Composite(vs, X, Y, strip(Y)) else g[Y][X]
         else h[Y][X] == g[Y][X] || h[Y][X] == strip(Y)
  }

  /** The pixels of the region have become background and all others stay. */
  ghost predicate Filled(strip: int -> Pixel, g: Pixels, h: Pixels, region: Region) {
    && SameSize(g, h)
    && forall Y, X | 0 <= Y < |g| && 0 <= X < |g[Y]| :: h[Y][X] == if (X, Y) in region then strip(Y) else g[Y][X]
  }

  lemma FilledAgain(strip: int -> Pixel, g: Pixels, h: Pixels, k: Pixels, a: Region, b: Region)
    requires Filled(strip, g, h, a) && Filled(strip, h, k, b)
    ensures Filled(strip, g, k, a + b)
  {
  }

  /** How often each position has been written. */
  type Writes = multiset<(int, int)>

  /** From one record to the next every position of the region is written once, and no other at all. */
  ghost predicate WrittenOnce(before: Writes, after: Writes, region: Region) {
    forall p :: after[p] == before[p] + if p in region then 1 else 0
  }

  lemma WrittenAgain(first: Writes, second: Writes, third: Writes, a: Region, b: Region)
    requires a !! b && WrittenOnce(first, second, a) && WrittenOnce(second, third, b)
    ensures WrittenOnce(first, third, a + b)
  {
  }

  lemma RedrawnNothing(vs: seq<View>, strip: int -> Pixel, g: Pixels)
    requires AllShaped(vs)
    ensures Redrawn(vs, strip, g, g, iset{})
  {
  }

  lemma RedrawnAgain(vs: seq<View>, strip: int -> Pixel, g: Pixels, h: Pixels, k: Pixels, a: Region, b: Region)
    requires AllShaped(vs)
    requires Redrawn(vs, strip, g, h, a) && Redrawn(vs, strip, h, k, b)
    ensures Redrawn(vs, strip, g, k, a + b)
  {
  }

  /** Only the part of a region that is covered and on the screen matters. */
  lemma RedrawnSame(vs: seq<View>, strip: int -> Pixel, g: Pixels, h: Pixels, a: Region, b: Region)
    requires AllShaped(vs) && Redrawn(vs, strip, g, h, a)
    requires forall Y, X | 0 <= Y < |g| && 0 <= X < |g[Y]| && Covered(vs, X, Y) :: (X, Y) in a <==> (X, Y) in b
    ensures Redrawn(vs, strip, g, h, b)
  {
  }

  /** Every covered pixel outside `hole` shows its composite value. */
  ghost predicate RightOutside(vs: seq<View>, strip: int -> Pixel, g: Pixels, hole: Region)
    requires AllShaped(vs)
  {
    forall Y, X | 0 <= Y < |g| && 0 <= X < |g[Y]| && Covered(vs, X, Y) && (X, Y) !in hole ::
      g[Y][X] == Composite(vs, X, Y, strip(Y))
  }

  ghost predicate Right(vs: seq<View>, strip: int -> Pixel, g: Pixels)
    requires AllShaped(vs)
  {
    RightOutside(vs, strip, g, iset{})
  }

  /** On a right screen a display that is opaque at a pixel it tops shows its own pixel there. */
  lemma TopmostWins(vs: seq<View>, strip: int -> Pixel, g: Pixels, i: int, X: int, Y: int)
    requires AllShaped(vs) && Right(vs, strip, g) && 0 <= Y < |g| && 0 <= X < |g[Y]|
    requires IsTop(vs, i, X, Y)
    requires var v := vs[i];
      (v.solid.x1 <= X - v.x < v.solid.x2 && v.solid.y1 <= Y - v.y < v.solid.y2) || v.rows[Y - v.y][X - v.x].a == 0
    ensures g[Y][X] == vs[i].rows[Y - vs[i].y][X - vs[i].x]
  {
    CompositeOfTop(vs, i, X, Y, strip(Y));
  }

  /** The pixel is covered and has the same composite value in both stacks. */
  ghost predicate Same(vs: seq<View>, ws: seq<View>, strip: int -> Pixel, X: int, Y: int)
    requires AllShaped(vs) && AllShaped(ws)
  {
    Covered(vs, X, Y) && Composite(vs, X, Y, strip(Y)) == Composite(ws, X, Y, strip(Y))
  }

  /** A change of the stack from vs to ws is repaired by redrawing the pixels it affects. */
  lemma Repaired(vs: seq<View>, ws: seq<View>, strip: int -> Pixel, g: Pixels, h: Pixels, region: Region, hole: Region)
    requires AllShaped(vs) && AllShaped(ws)
    requires Right(vs, strip, g) && Redrawn(ws, strip, g, h, region)
    requires forall Y, X |
      0 <= Y < |g| && 0 <= X < |g[Y]| && Covered(ws, X, Y) && (X, Y) !in hole && (X, Y) !in region ::
      Same(vs, ws, strip, X, Y)
    ensures RightOutside(ws, strip, h, hole)
  {
  }

  /** When only display i changed, a pixel is unaffected if display i reaches it neither before nor
      after, or if a solid part of a display above it shows there. */
  lemma OneChanged(vs: seq<View>, ws: seq<View>, strip: int -> Pixel, i: int, X: int, Y: int)
    requires AllShaped(vs) && AllShaped(ws) && |vs| == |ws| && 0 <= i < |vs|
    requires forall k | 0 <= k < |vs| && k != i :: vs[k] == ws[k]
    requires Covered(ws, X, Y)
    requires (!vs[i].Covers(X, Y) && !ws[i].Covers(X, Y))
      || exists t :: t > i && IsTop(ws, t, X, Y) && ws[t].SolidAt(X, Y)
    ensures Same(vs, ws, strip, X, Y)
  {
    if !vs[i].Covers(X, Y) && !ws[i].Covers(X, Y) {
      var t := TopExists(ws, X, Y);
      assert vs[t].Covers(X, Y);
      SameWhereNotReached(vs, ws, X, Y, strip(Y));
    } else {
      var t :| t > i && IsTop(ws, t, X, Y) && ws[t].SolidAt(X, Y);
      assert IsTop(vs, t, X, Y);
      SolidTopValue(vs, t, X, Y, strip(Y));
      SolidTopValue(ws, t, X, Y, strip(Y));
    }
  }

  /** Lifting a display over a run of others changes nothing where it does not reach. */
  lemma RaisedElsewhere(a: seq<View>, v: View, b: seq<View>, c: seq<View>, strip: int -> Pixel, X: int, Y: int)
    requires AllShaped(a + [v] + b + c) && AllShaped(a + b + [v] + c) && v.WellFormed()
    requires Covered(a + b + [v] + c, X, Y) && !v.Covers(X, Y)
    ensures Same(a + [v] + b + c, a + b + [v] + c, strip, X, Y)
  {
    var vs, ws := a + [v] + b + c, a + b + [v] + c;
    var t :| 0 <= t < |ws| && ws[t].Covers(X, Y);
    assert ws[t] == vs[if t < |a| || t > |a + b| then t else t + 1];
    assert vs == a + [v] + (b + c) && a + (b + c) == (a + b) + c;
    assert AllShaped(a + (b + c)) by {
      assert forall k | 0 <= k < |a + (b + c)| :: (a + (b + c))[k] == vs[if k < |a| then k else k + 1];
    }
    SkipNonCovering(a, v, b + c, X, Y, strip(Y));
    SkipNonCovering(a + b, v, c, X, Y, strip(Y));
  }

  /** Nor where a solid part of a display above its new place shows. */
  lemma RaisedBeneath(a: seq<View>, v: View, b: seq<View>, c: seq<View>, strip: int -> Pixel, t: int, X: int, Y: int)
    requires AllShaped(a + [v] + b + c) && AllShaped(a + b + [v] + c)
    requires t > |a + b| && IsTop(a + b + [v] + c, t, X, Y) && (a + b + [v] + c)[t].SolidAt(X, Y)
    ensures Same(a + [v] + b + c, a + b + [v] + c, strip, X, Y)
  {
    var vs, ws := a + [v] + b + c, a + b + [v] + c;
    assert forall k | |a + b| < k < |vs| :: vs[k] == ws[k];
    assert IsTop(vs, t, X, Y);
    SolidTopValue(vs, t, X, Y, strip(Y));
    SolidTopValue(ws, t, X, Y, strip(Y));
  }
}
