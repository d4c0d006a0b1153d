/** Which pixels the background scan of drivers/DisplayManager.cpp fills: all that are bare, unless
    the order of the list makes it jump over a gap between two displays. */
module Background {
  import opened Geometry
  import opened Lists
  import opened Maths
  import opened Repaint
  import opened Screen
  import opened View

  /** The local variables of the scan: fill from `start` to `end` and resume at `next`. */
  datatype Look = Look(start: int, end: int, next: int)

  predicate OnRow(v: View, Y: int) {
    v.visible && v.HasRow(Y)
  }

  /** One more display is looked at. Once nothing is left to fill the scan breaks off. */
  function Narrowed(look: Look, v: View, Y: int): Look
    requires v.WellFormed()
  {
    if look.start >= look.end || !OnRow(v, Y) then look
    else if v.Left(Y) <= look.start then look.(start := Max(look.start, v.Right(Y)))
    else if v.Left(Y) < look.end then look.(end := v.Left(Y), next := Max(look.next, v.Right(Y)))
    else look
  }

  /** What one scan from `from` knows after the first k displays of the list. */
  function LookPast(vs: seq<View>, Y: int, k: nat, from: int, x2: int): (look: Look)
    requires k <= |vs| && forall i | 0 <= i < |vs| :: vs[i].WellFormed()
    ensures look.end <= x2
  {
    if k == 0 then Look(from, x2, from) else Narrowed(LookPast(vs, Y, k - 1, from, x2), vs[k - 1], Y)
  }

  /** Everything left of the stretch is covered, and nothing in it is. */
  ghost predicate Narrowing(vs: seq<View>, Y: int, k: nat, from: int, x2: int, look: Look)
    requires AllShaped(vs) && k <= |vs|
  {
    && from <= look.start && from < look.end <= x2
    && (if look.end == x2 then look.next == from else look.end < look.next)
    && (forall X | from <= X < look.start :: Covered(vs, X, Y))
    && (forall X, j | look.start <= X < look.end && 0 <= j < k :: !vs[j].Covers(X, Y))
  }

  lemma {:induction false} LookNarrows(vs: seq<View>, Y: int, k: nat, from: int, x2: int)
    requires AllShaped(vs) && k <= |vs| && from < x2
    ensures Narrowing(vs, Y, k, from, x2, LookPast(vs, Y, k, from, x2))
  {
    if k > 0 {
      LookNarrows(vs, Y, k - 1, from, x2);
      var look, v := LookPast(vs, Y, k - 1, from, x2), vs[k - 1];
      if look.start < look.end && OnRow(v, Y) {
        assert v.Left(Y) < v.Right(Y);
        assert forall X | v.Left(Y) <= X < v.Right(Y) :: v.Covers(X, Y);
      }
    }
  }

  lemma {:induction false} LookIsOver(vs: seq<View>, Y: int, k: nat, from: int, x2: int)
    requires AllShaped(vs) && k <= |vs|
    requires LookPast(vs, Y, k, from, x2).start >= LookPast(vs, Y, k, from, x2).end
    ensures LookPast(vs, Y, |vs|, from, x2) == LookPast(vs, Y, k, from, x2)
    decreases |vs| - k
  {
    if k < |vs| {
      LookIsOver(vs, Y, k + 1, from, x2);
    }
  }

  /** The scan of columns [from, x2) of row Y, with all its rounds, fills column X. */
  ghost predicate Fills(vs: seq<View>, Y: int, from: int, x2: int, X: int)
    requires AllShaped(vs)
    decreases x2 - from
  {
    from < x2 &&
    var look := LookPast(vs, Y, |vs|, from, x2);
    LookNarrows(vs, Y, |vs|, from, x2);
    look.start <= X < look.end || (look.next > look.end && Fills(vs, Y, look.next, x2, X))
  }

  lemma {:induction false} FillsOnlyBare(vs: seq<View>, Y: int, from: int, x2: int, X: int)
    requires AllShaped(vs) && Fills(vs, Y, from, x2, X)
    ensures from <= X < x2 && !Covered(vs, X, Y)
    decreases x2 - from
  {
    var look := LookPast(vs, Y, |vs|, from, x2);
    LookNarrows(vs, Y, |vs|, from, x2);
    if !(look.start <= X < look.end) {
      FillsOnlyBare(vs, Y, look.next, x2, X);
    }
  }

  /** Where the first display in the list starts, of those that cut the stretch short. */
  function FirstEdge(vs: seq<View>, Y: int, k: nat, from: int, x2: int): (edge: int)
    requires k <= |vs| && forall i | 0 <= i < |vs| :: vs[i].WellFormed()
    ensures edge <= x2
  {
    if k == 0 then x2
    else
      var before := FirstEdge(vs, Y, k - 1, from, x2);
      if before < x2 then before else LookPast(vs, Y, k, from, x2).end
  }

  /** In every round all from the end of the stretch up to the first display that cut it is covered. */
  ghost predicate GapFree(vs: seq<View>, Y: int, from: int, x2: int)
    requires AllShaped(vs)
    decreases x2 - from
  {
    from < x2 ==>
      var look := LookPast(vs, Y, |vs|, from, x2);
      LookNarrows(vs, Y, |vs|, from, x2);
      look.end < x2 ==>
        && (forall X | look.end <= X < FirstEdge(vs, Y, |vs|, from, x2) :: Covered(vs, X, Y))
        && GapFree(vs, Y, look.next, x2)
  }

  /** A bare pixel is jumped over exactly if it is left of the first display that cut the stretch. */
  lemma {:induction false} JumpsTo(vs: seq<View>, Y: int, k: nat, from: int, x2: int, X: int)
    requires AllShaped(vs) && k <= |vs| && from < x2 && !Covered(vs, X, Y) && from <= X
    ensures var look, edge := LookPast(vs, Y, k, from, x2), FirstEdge(vs, Y, k, from, x2);
      look.end <= edge <= x2 && (edge == x2 <==> look.end == x2) && (edge < x2 ==> (X < look.next <==> X < edge))
  {
    LookNarrows(vs, Y, k, from, x2);
    if k > 0 {
      LookNarrows(vs, Y, k - 1, from, x2);
      JumpsTo(vs, Y, k - 1, from, x2, X);
      var v := vs[k - 1];
      if OnRow(v, Y) {
        assert !v.Covers(X, Y) && v.Left(Y) < v.Right(Y);
      }
    }
  }

  /** Every bare pixel from column `from` on is filled. */
  ghost predicate FillsAll(vs: seq<View>, Y: int, from: int, x2: int)
    requires AllShaped(vs)
  {
    forall X | from <= X < x2 && !Covered(vs, X, Y) :: Fills(vs, Y, from, x2, X)
  }

  /** After one round, a bare pixel is filled by it, jumped over, or left to the next. */
  lemma RoundFills(vs: seq<View>, Y: int, from: int, x2: int, X: int)
    requires AllShaped(vs) && from <= X < x2 && !Covered(vs, X, Y)
    ensures var look, edge := LookPast(vs, Y, |vs|, from, x2), FirstEdge(vs, Y, |vs|, from, x2);
      && look.end <= edge && (look.end < x2 ==> look.end < look.next && (X < look.next <==> X < edge))
      && (Fills(vs, Y, from, x2, X) <==> X < look.end || (look.end < x2 && X >= edge && Fills(vs, Y, look.next, x2, X)))
  {
    var look := LookPast(vs, Y, |vs|, from, x2);
    LookNarrows(vs, Y, |vs|, from, x2);
    JumpsTo(vs, Y, |vs|, from, x2, X);
    if look.end < x2 && Fills(vs, Y, look.next, x2, X) {
      FillsOnlyBare(vs, Y, look.next, x2, X);
    }
  }

  /** The row is filled wherever it is bare exactly when it has no such gap. */
  lemma {:induction false} FillsAllIff(vs: seq<View>, Y: int, from: int, x2: int)
    requires AllShaped(vs)
    ensures FillsAll(vs, Y, from, x2) <==> GapFree(vs, Y, from, x2)
    decreases x2 - from
  {
    if from < x2 {
      var look, edge := LookPast(vs, Y, |vs|, from, x2), FirstEdge(vs, Y, |vs|, from, x2);
      LookNarrows(vs, Y, |vs|, from, x2);
      forall X | from <= X < x2 && !Covered(vs, X, Y)
        ensures Fills(vs, Y, from, x2, X) <==>
          X < look.end || (look.end < x2 && X >= edge && Fills(vs, Y, look.next, x2, X))
        ensures look.end < x2 ==> (X < look.next <==> X < edge)
      {
        RoundFills(vs, Y, from, x2, X);
      }
      if look.end < x2 {
        FillsAllIff(vs, Y, look.next, x2);
        if FillsAll(vs, Y, from, x2) {
          assert forall X | look.end <= X < edge :: Covered(vs, X, Y);
          forall X | look.next <= X < x2 && !Covered(vs, X, Y) ensures Fills(vs, Y, look.next, x2, X) {
            assert Fills(vs, Y, from, x2, X);
          }
        }
      }
    }
  }

  /** Displays f and e of the list make a scan from column s jump over the bare column X: e is to its
      left and f to its right, but f is listed first. Nothing listed before f is in the way of either,
      and nothing listed between them reaches s. */
  ghost predicate Trap(vs: seq<View>, Y: int, s: int, f: int, e: int, X: int)
    requires AllShaped(vs)
  {
    && 0 <= f < e < |vs| && OnRow(vs[f], Y) && OnRow(vs[e], Y)
    && s < vs[e].Left(Y) <= X < vs[f].Left(Y) && !Covered(vs, X, Y)
    && (forall p | 0 <= p < f && OnRow(vs[p], Y) :: vs[p].Right(Y) <= s || vs[p].Left(Y) > vs[f].Left(Y))
    && (forall q | f < q < e :: !vs[q].Covers(s, Y))
  }

  ghost predicate Seamless(vs: seq<View>, Y: int)
    requires AllShaped(vs)
  {
    forall s, f, e, X :: !Trap(vs, Y, s, f, e, X)
  }

  lemma {:induction false} TrapLook(vs: seq<View>, Y: int, s: int, f: int, e: int, X: int, k: nat)
    requires AllShaped(vs) && Trap(vs, Y, s, f, e, X) && k <= |vs|
    ensures var look := LookPast(vs, Y, k, s, vs[f].Left(Y) + 1);
      && (k <= f ==> look == Look(s, vs[f].Left(Y) + 1, s))
      && (f < k <= e ==> look.start == s < look.end <= vs[f].Left(Y) && X < look.next)
      && (e < k ==> look.end <= X < look.next)
  {
    if k > 0 {
      TrapLook(vs, Y, s, f, e, X, k - 1);
      var v := vs[k - 1];
      if OnRow(v, Y) {
        assert v.Left(Y) < v.Right(Y);
        assert f < k - 1 < e ==> !v.Covers(s, Y);
      }
    }
  }

  lemma TrapMisses(vs: seq<View>, Y: int, s: int, f: int, e: int, X: int)
    requires AllShaped(vs) && Trap(vs, Y, s, f, e, X)
    ensures !FillsAll(vs, Y, s, vs[f].Left(Y) + 1)
  {
    var x2 := vs[f].Left(Y) + 1;
    TrapLook(vs, Y, s, f, e, X, |vs|);
    RoundFills(vs, Y, s, x2, X);
    assert !Fills(vs, Y, s, x2, X);
  }

  /** Display f was the first to cut the stretch, none of those after it has cut it left of X. */
  ghost predicate HeldBack(vs: seq<View>, Y: int, k: int, f: int, start: int, x2: int, X: int)
    requires AllShaped(vs) && 0 <= f < k <= |vs|
  {
    && OnRow(vs[f], Y) && X < vs[f].Left(Y) < x2
    && (forall p | 0 <= p < f && OnRow(vs[p], Y) :: vs[p].Right(Y) <= start || vs[p].Left(Y) >= x2)
    && (forall q | f < q < k && OnRow(vs[q], Y) :: vs[q].Right(Y) <= start || vs[q].Left(Y) > X)
  }

  /** So far the scan has met no display that could cut the stretch. */
  ghost predicate NothingAhead(vs: seq<View>, Y: int, k: int, start: int, x2: int)
    requires AllShaped(vs) && 0 <= k <= |vs|
  {
    forall p | 0 <= p < k && OnRow(vs[p], Y) :: vs[p].Right(Y) <= start || vs[p].Left(Y) >= x2
  }

  /** The scan has not cut the stretch left of the bare column X before it reaches display k, unless
      the first display to cut it was left of X already. */
  ghost predicate Reaches(vs: seq<View>, Y: int, k: nat, from: int, x2: int, X: int)
    requires AllShaped(vs) && k <= |vs|
  {
    var look, edge := LookPast(vs, Y, k, from, x2), FirstEdge(vs, Y, k, from, x2);
    && look.start <= X && (edge == x2 <==> look.end == x2)
    && (edge == x2 ==> NothingAhead(vs, Y, k, look.start, x2))
    && (X < edge < x2 ==>
         X < look.end && exists f | 0 <= f < k :: HeldBack(vs, Y, k, f, look.start, x2, X))
  }

  lemma ReachesFirst(vs: seq<View>, Y: int, k: nat, from: int, x2: int, X: int)
    requires AllShaped(vs) && k < |vs| && from <= X < x2 && !Covered(vs, X, Y)
    requires Reaches(vs, Y, k, from, x2, X) && FirstEdge(vs, Y, k, from, x2) == x2
    ensures Reaches(vs, Y, k + 1, from, x2, X)
  {
    var look, edge, v := LookPast(vs, Y, k, from, x2), FirstEdge(vs, Y, k, from, x2), vs[k];
    LookNarrows(vs, Y, k + 1, from, x2);
    if OnRow(v, Y) {
      assert !v.Covers(X, Y) && v.Left(Y) < v.Right(Y);
      if X < v.Left(Y) < x2 {
        assert HeldBack(vs, Y, k + 1, k, look.start, x2, X);
      }
    }
  }

  lemma ReachesNext(vs: seq<View>, Y: int, k: nat, from: int, x2: int, X: int)
    requires AllShaped(vs) && Seamless(vs, Y) && k < |vs| && from <= X < x2 && !Covered(vs, X, Y)
    requires Reaches(vs, Y, k, from, x2, X) && FirstEdge(vs, Y, k, from, x2) < x2
    ensures Reaches(vs, Y, k + 1, from, x2, X)
  {
    var look, edge, v := LookPast(vs, Y, k, from, x2), FirstEdge(vs, Y, k, from, x2), vs[k];
    LookNarrows(vs, Y, k + 1, from, x2);
    if X < edge {
      var f :| 0 <= f < k && HeldBack(vs, Y, k, f, look.start, x2, X);
      if OnRow(v, Y) {
        assert !v.Covers(X, Y) && v.Left(Y) < v.Right(Y);
        if look.start < v.Left(Y) <= X {
          assert forall q | f < q < k :: !vs[q].Covers(look.start, Y);
          assert Trap(vs, Y, look.start, f, k, X);
          assert false;
        }
      }
      assert HeldBack(vs, Y, k + 1, f, LookPast(vs, Y, k + 1, from, x2).start, x2, X);
    }
  }

  lemma {:induction false} SeamlessReaches(vs: seq<View>, Y: int, k: nat, from: int, x2: int, X: int)
    requires AllShaped(vs) && Seamless(vs, Y) && k <= |vs| && from <= X < x2 && !Covered(vs, X, Y)
    ensures Reaches(vs, Y, k, from, x2, X)
  {
    if k > 0 {
      SeamlessReaches(vs, Y, k - 1, from, x2, X);
      if FirstEdge(vs, Y, k - 1, from, x2) == x2 {
        ReachesFirst(vs, Y, k - 1, from, x2, X);
      } else {
        ReachesNext(vs, Y, k - 1, from, x2, X);
      }
    }
  }

  lemma {:induction false} SeamlessFills(vs: seq<View>, Y: int, from: int, x2: int, X: int)
    requires AllShaped(vs) && Seamless(vs, Y) && from <= X < x2 && !Covered(vs, X, Y)
    ensures Fills(vs, Y, from, x2, X)
    decreases x2 - from
  {
    var look := LookPast(vs, Y, |vs|, from, x2);
    RoundFills(vs, Y, from, x2, X);
    if X >= look.end {
      SeamlessReaches(vs, Y, |vs|, from, x2, X);
      LookNarrows(vs, Y, |vs|, from, x2);
      JumpsTo(vs, Y, |vs|, from, x2, X);
      SeamlessFills(vs, Y, look.next, x2, X);
    }
  }

  /** Scans fill all that is bare, wherever they begin and end, exactly if the list holds no such trap. */
  lemma SeamlessIff(vs: seq<View>, Y: int)
    requires AllShaped(vs)
    ensures (forall from, x2 :: FillsAll(vs, Y, from, x2)) <==> Seamless(vs, Y)
  {
    if Seamless(vs, Y) {
      forall from, x2 ensures FillsAll(vs, Y, from, x2) {
        forall X | from <= X < x2 && !Covered(vs, X, Y) ensures Fills(vs, Y, from, x2, X) {
          SeamlessFills(vs, Y, from, x2, X);
        }
      }
    } else {
      var s, f, e, X :| Trap(vs, Y, s, f, e, X);
      TrapMisses(vs, Y, s, f, e, X);
    }
  }

  /** Displays listed from left to right are no trap and leave no gap. */
  lemma LeftToRightIsGapFree(vs: seq<View>, Y: int, from: int, x2: int)
    requires AllShaped(vs)
    requires forall i, j | 0 <= i < j < |vs| && OnRow(vs[i], Y) && OnRow(vs[j], Y) :: vs[i].Left(Y) <= vs[j].Left(Y)
    ensures Seamless(vs, Y) && GapFree(vs, Y, from, x2)
  {
    SeamlessIff(vs, Y);
    FillsAllIff(vs, Y, from, x2);
  }

  // ------------------------------------------ the background of the whole screen

  /** On seamless rows all that is bare in the region is background. */
  ghost predicate Cleared(vs: seq<View>, strip: int -> Pixel, g: Pixels, region: Region)
    requires AllShaped(vs)
  {
    forall Y, X | 0 <= Y < |g| && 0 <= X < |g[Y]| && (X, Y) in region && !Covered(vs, X, Y) ::
      Seamless(vs, Y) ==> g[Y][X] == strip(Y)
  }

  /** Painting turns no background into anything else. */
  lemma ClearedStays(vs: seq<View>, strip: int -> Pixel, g: Pixels, h: Pixels, painted: Region, region: Region)
    requires AllShaped(vs) && Cleared(vs, strip, g, region) && Redrawn(vs, strip, g, h, painted)
    ensures Cleared(vs, strip, h, region)
  {
  }

  /** What the scan of a screen rectangle fills. */
  ghost function FilledIn(vs: seq<View>, rect: Rect): Region
    requires AllShaped(vs)
  {
    iset p: (int, int) | rect.y1 <= p.1 < rect.y2 && Fills(vs, p.1, rect.x1, rect.x2, p.0)
  }

  /** What is filled is what the scan fills before it comes to column `start`. */
  ghost predicate FilledSoFar(vs: seq<View>, Y: int, x1: int, start: int, x2: int, filled: Region)
    requires AllShaped(vs)
  {
    forall p: (int, int) :: (p in filled || (p.1 == Y && Fills(vs, Y, start, x2, p.0))) <==>
      p.1 == Y && Fills(vs, Y, x1, x2, p.0)
  }

  lemma FilledRows(vs: seq<View>, rect: Rect, Y: int)
    requires AllShaped(vs) && rect.y1 <= Y
    ensures FilledIn(vs, rect.(y2 := Y)) + FilledIn(vs, Rect(rect.x1, Y, rect.x2, Y + 1))
      == FilledIn(vs, rect.(y2 := Y + 1))
  {
  }

  /** Filling touches no covered pixel, and with no gap it turns every bare one into background. */
  lemma FillingFacts(vs: seq<View>, strip: int -> Pixel, g: Pixels, h: Pixels, rect: Rect)
    requires AllShaped(vs) && Filled(strip, g, h, FilledIn(vs, rect))
    ensures Redrawn(vs, strip, g, h, iset{})
    ensures forall Y, X | 0 <= Y < |h| && 0 <= X < |h[Y]| && rect.Contains(X, Y) && !Covered(vs, X, Y) ::
      GapFree(vs, Y, rect.x1, rect.x2) ==> h[Y][X] == strip(Y)
    ensures Cleared(vs, strip, h, Within(rect))
  {
    forall X, Y | (X, Y) in FilledIn(vs, rect) ensures !Covered(vs, X, Y) {
      FillsOnlyBare(vs, Y, rect.x1, rect.x2, X);
    }
    forall Y, X | rect.Contains(X, Y) && !Covered(vs, X, Y) && GapFree(vs, Y, rect.x1, rect.x2)
      ensures (X, Y) in FilledIn(vs, rect)
    {
      FillsAllIff(vs, Y, rect.x1, rect.x2);
    }
    forall Y, X | rect.Contains(X, Y) && !Covered(vs, X, Y) && Seamless(vs, Y)
      ensures (X, Y) in FilledIn(vs, rect)
    {
      SeamlessFills(vs, Y, rect.x1, rect.x2, X);
    }
  }

  /** What is off the screen does not matter. */
  lemma ClearedOnScreen(vs: seq<View>, strip: int -> Pixel, g: Pixels, rect: Rect, screen: Rect)
    requires screen.x1 == screen.y1 == 0 && |g| == screen.y2 && forall Y | 0 <= Y < |g| :: |g[Y]| == screen.x2
    requires AllShaped(vs) && Cleared(vs, strip, g, Within(rect.Intersect(screen)))
    ensures Cleared(vs, strip, g, Within(rect))
  {
  }

  /** Row Y shows background wherever it is bare, outside `hole`. */
  ghost predicate RowClear(vs: seq<View>, strip: int -> Pixel, g: Pixels, Y: int, hole: Region)
    requires AllShaped(vs)
  {
    0 <= Y < |g| ==> forall X | 0 <= X < |g[Y]| && !Covered(vs, X, Y) && (X, Y) !in hole :: g[Y][X] == strip(Y)
  }

  /** From one screen to the next, and from one stack to the next, every row that is seamless now and
      showed background wherever it was bare still does, outside `hole`. */
  ghost predicate KeepsBackground(vs: seq<View>, ws: seq<View>, strip: int -> Pixel, g: Pixels, h: Pixels, hole: Region)
    requires AllShaped(vs) && AllShaped(ws)
  {
    forall Y | RowClear(vs, strip, g, Y, iset{}) && Seamless(ws, Y) :: RowClear(ws, strip, h, Y, hole)
  }

  /** It is enough to clear what has become bare. */
  lemma BackgroundKept(vs: seq<View>, ws: seq<View>, strip: int -> Pixel, g: Pixels, h: Pixels,
                       painted: Region, cleared: Region, hole: Region)
    requires AllShaped(vs) && AllShaped(ws)
    requires Redrawn(ws, strip, g, h, painted) && Cleared(ws, strip, h, cleared)
    requires forall X, Y | 0 <= Y < |g| && 0 <= X < |g[Y]| && Covered(vs, X, Y) && !Covered(ws, X, Y) ::
      (X, Y) in cleared + hole
    ensures KeepsBackground(vs, ws, strip, g, h, hole)
  {
  }

  /** An operation has turned stack vs into ws: a right screen is right again outside `hole`, and
      background stays where it was and comes where nothing is any more. */
  ghost predicate Refreshed(vs: seq<View>, ws: seq<View>, strip: int -> Pixel, g: Pixels, h: Pixels, hole: Region)
    requires AllShaped(vs) && AllShaped(ws)
  {
    (Right(vs, strip, g) ==> RightOutside(ws, strip, h, hole)) && KeepsBackground(vs, ws, strip, g, h, hole)
  }

  lemma NothingChanged(vs: seq<View>, strip: int -> Pixel, g: Pixels, hole: Region)
    requires AllShaped(vs)
    ensures Refreshed(vs, vs, strip, g, g, hole)
  {
  }

  /** Where every visible display is still there, nothing has become bare. */
  lemma NothingBared(vs: seq<View>, ws: seq<View>, strip: int -> Pixel, g: Pixels, h: Pixels,
                     painted: Region, hole: Region)
    requires AllShaped(vs) && AllShaped(ws) && Redrawn(ws, strip, g, h, painted)
    requires forall t | 0 <= t < |vs| && vs[t].visible :: vs[t] in ws
    ensures KeepsBackground(vs, ws, strip, g, h, hole)
  {
    forall X, Y | Covered(vs, X, Y) ensures Covered(ws, X, Y) {
      var t :| 0 <= t < |vs| && vs[t].Covers(X, Y);
      var k :| 0 <= k < |ws| && ws[k] == vs[t];
    }
    BackgroundKept(vs, ws, strip, g, h, painted, iset{}, hole);
  }

  /** Where all other visible displays are still there, only what display i covered can be bare now. */
  lemma OnlyOneBares(vs: seq<View>, ws: seq<View>, i: nat, X: int, Y: int)
    requires AllShaped(vs) && AllShaped(ws) && i < |vs|
    requires forall t | 0 <= t < |vs| && t != i :: vs[t] in ws
    requires Covered(vs, X, Y) && !Covered(ws, X, Y)
    ensures vs[i].Covers(X, Y) && Footprint(vs[i]).Contains(X, Y)
  {
    var t :| 0 <= t < |vs| && vs[t].Covers(X, Y);
  }

  lemma HideRefreshes(vs: seq<View>, ws: seq<View>, strip: int -> Pixel, g: Pixels, h: Pixels, i: nat)
    requires AllShaped(vs) && AllShaped(ws) && i < |vs| && ws == vs[i := vs[i].(visible := false)]
    requires Redrawn(ws, strip, g, h, Within(Footprint(ws[i])) * Beneath(ws, i))
    requires Cleared(ws, strip, h, Within(Footprint(ws[i])))
    ensures Refreshed(vs, ws, strip, g, h, iset{})
  {
    var area := Within(Footprint(ws[i]));
    forall X, Y | Covered(vs, X, Y) && !Covered(ws, X, Y) ensures (X, Y) in area {
      assert forall t | 0 <= t < |vs| && t != i :: vs[t] == ws[t];
      OnlyOneBares(vs, ws, i, X, Y);
    }
    BackgroundKept(vs, ws, strip, g, h, area * Beneath(ws, i), area, iset{});
    if Right(vs, strip, g) {
      HideRepairs(vs, ws, strip, g, h, i);
    }
  }

  lemma ShowRefreshes(vs: seq<View>, ws: seq<View>, strip: int -> Pixel, g: Pixels, h: Pixels, i: nat, update: bool)
    requires AllShaped(vs) && AllShaped(ws) && i < |vs| && ws == vs[i := vs[i].(visible := true)] && !vs[i].visible
    requires if update
      then Redrawn(ws, strip, g, h, SolidRegion(ws, i, ws[i].solid) + TranslucentIn(ws, Footprint(ws[i])))
      else g == h
    ensures Refreshed(vs, ws, strip, g, h, if update then iset{} else Within(Footprint(ws[i])))
  {
    assert forall t | 0 <= t < |vs| && vs[t].visible :: vs[t] == ws[t];
    if update {
      NothingBared(vs, ws, strip, g, h, SolidRegion(ws, i, ws[i].solid) + TranslucentIn(ws, Footprint(ws[i])), iset{});
      if Right(vs, strip, g) {
        ShowRepairs(vs, ws, strip, g, h, i);
      }
    } else {
      RedrawnNothing(ws, strip, g);
      NothingBared(vs, ws, strip, g, h, iset{}, Within(Footprint(ws[i])));
      if Right(vs, strip, g) {
        OutsideIsSame(vs, ws, strip, g, i);
      }
    }
  }

  lemma RaiseRefreshes(vs: seq<View>, ws: seq<View>, strip: int -> Pixel, g: Pixels, h: Pixels, i: nat, j: nat)
    requires AllShaped(vs) && AllShaped(ws) && i <= j < |vs| == |ws| && ws == Lift(vs, i, j)
    requires Redrawn(ws, strip, g, h, SolidRegion(ws, j, ws[j].solid) + TranslucentIn(ws, Footprint(ws[j])))
    ensures Refreshed(vs, ws, strip, g, h, iset{})
  {
    forall t | 0 <= t < |vs| ensures vs[t] in ws {
      LiftElements(vs, i, j);
      assert vs[t] == ws[if t < i || t > j then t else if t == i then j else t - 1];
    }
    NothingBared(vs, ws, strip, g, h, SolidRegion(ws, j, ws[j].solid) + TranslucentIn(ws, Footprint(ws[j])), iset{});
    if Right(vs, strip, g) {
      RaiseRepairs(vs, ws, strip, g, h, i, j);
    }
  }

  lemma InsertRefreshes(vs: seq<View>, ws: seq<View>, strip: int -> Pixel, g: Pixels, k: nat, v: View)
    requires AllShaped(vs) && AllShaped(ws) && k <= |vs| && ws == With(vs, k, v) && !v.visible
    ensures Refreshed(vs, ws, strip, g, g, iset{})
  {
    WithElements(vs, k, v);
    forall t | 0 <= t < |vs| ensures vs[t] in ws {
      assert vs[t] == ws[if t < k then t else t + 1];
    }
    RedrawnNothing(ws, strip, g);
    NothingBared(vs, ws, strip, g, g, iset{}, iset{});
    if Right(vs, strip, g) {
      assert ws[k] == v && vs[..k] + vs[k..] == vs;
      InsertHidden(vs[..k], v, vs[k..], strip, g);
    }
  }

  lemma DestroyRefreshes(vs: seq<View>, ws: seq<View>, strip: int -> Pixel, g: Pixels, h: Pixels, i: nat)
    requires AllShaped(vs) && AllShaped(ws) && i < |vs| && ws == Without(vs, i)
    requires Redrawn(ws, strip, g, h, Within(Footprint(vs[i])) * Beneath(ws, |ws|))
    requires Cleared(ws, strip, h, Within(Footprint(vs[i])))
    ensures Refreshed(vs, ws, strip, g, h, iset{})
  {
    var area := Within(Footprint(vs[i]));
    WithoutElements(vs, i);
    forall t | 0 <= t < |vs| && t != i ensures vs[t] in ws {
      assert vs[t] == ws[if t < i then t else t - 1];
    }
    forall X, Y | Covered(vs, X, Y) && !Covered(ws, X, Y) ensures (X, Y) in area {
      OnlyOneBares(vs, ws, i, X, Y);
    }
    BackgroundKept(vs, ws, strip, g, h, area * Beneath(ws, |ws|), area, iset{});
    if Right(vs, strip, g) {
      DestroyRepairs(vs, ws, strip, g, h, i);
    }
  }

  lemma MoveRefreshes(vs: seq<View>, ws: seq<View>, strip: int -> Pixel, g: Pixels, h: Pixels, i: nat, screen: Rect,
                      cover: Region, painted: Region, cleared: Region, update: bool)
    requires AllShaped(vs) && AllShaped(ws) && i < |vs| == |ws| && ws == vs[i := vs[i].(x := ws[i].x, y := ws[i].y)]
    requires screen.x1 == screen.y1 == 0 && |g| == screen.y2 && forall Y | 0 <= Y < |g| :: |g[Y]| == screen.x2
    requires forall X, Y |
      Footprint(vs[i]).Contains(X, Y) && screen.Contains(X, Y) && !Footprint(ws[i]).Contains(X, Y) :: (X, Y) in cover
    requires painted ==
      cover * Beneath(ws, i) + if update then Within(Footprint(ws[i])) * Beneath(ws, i + 1) else iset{}
    requires cleared == if update then cover + Within(Footprint(ws[i])) else cover
    requires Redrawn(ws, strip, g, h, painted) && Cleared(ws, strip, h, cleared)
    ensures Refreshed(vs, ws, strip, g, h, if update then iset{} else Within(Footprint(ws[i])))
  {
    var hole: Region := if update then iset{} else Within(Footprint(ws[i]));
    forall X, Y | screen.Contains(X, Y) && Covered(vs, X, Y) && !Covered(ws, X, Y)
      ensures (X, Y) in cleared + hole
    {
      assert forall t | 0 <= t < |vs| && t != i :: vs[t] == ws[t];
      OnlyOneBares(vs, ws, i, X, Y);
    }
    BackgroundKept(vs, ws, strip, g, h, painted, cleared, hole);
    if Right(vs, strip, g) {
      MoveRegion(vs, ws, i, screen, cover, painted, update);
      MoveRepairs(vs, ws, strip, g, h, i, screen, painted, update);
    }
  }

  /** The strips a moved display left, and then its new place. */
  lemma MovedUnder(ws: seq<View>, strip: int -> Pixel, g: Pixels, before: Pixels, h: Pixels, i: nat, area: Rect,
                   cover: Region)
    requires AllShaped(ws) && Redrawn(ws, strip, g, before, cover * Beneath(ws, i)) && Cleared(ws, strip, before, cover)
    requires Redrawn(ws, strip, before, h, Within(area) * Beneath(ws, i + 1)) && Cleared(ws, strip, h, Within(area))
    ensures Redrawn(ws, strip, g, h, cover * Beneath(ws, i) + Within(area) * Beneath(ws, i + 1))
    ensures Cleared(ws, strip, h, cover + Within(area))
  {
    RedrawnAgain(ws, strip, g, before, h, cover * Beneath(ws, i), Within(area) * Beneath(ws, i + 1));
    ClearedStays(ws, strip, before, h, Within(area) * Beneath(ws, i + 1), cover);
  }

  /** A hidden display moves: nothing else changes. */
  lemma HiddenMoveRefreshes(vs: seq<View>, ws: seq<View>, strip: int -> Pixel, g: Pixels, i: nat, hole: Region)
    requires AllShaped(vs) && AllShaped(ws) && i < |vs| == |ws| && ws == vs[i := vs[i].(x := ws[i].x, y := ws[i].y)]
    requires !vs[i].visible
    ensures Refreshed(vs, ws, strip, g, g, hole)
  {
    assert forall t | 0 <= t < |vs| && vs[t].visible :: vs[t] == ws[t];
    RedrawnNothing(ws, strip, g);
    NothingBared(vs, ws, strip, g, g, iset{}, hole);
    forall Y, X | 0 <= Y < |g| && 0 <= X < |g[Y]| && Covered(ws, X, Y) ensures Same(vs, ws, strip, X, Y) {
      OneChanged(vs, ws, strip, i, X, Y);
    }
    if Right(vs, strip, g) {
      Repaired(vs, ws, strip, g, g, iset{}, hole);
    }
  }

  const NO_CORNERS: seq<nat> := seq(CORNER_ROWS, _ => 0)

  /** A visible display of ten columns and one row, without a solid part. */
  function TenWide(x: int): View {
    View(x, 0, 0, true, 10, 1, Rect(0, 0, 0, 0), NO_CORNERS, NO_CORNERS, NO_CORNERS, NO_CORNERS, [seq(10, _ => BLACK)])
  }

  lemma TenWideIs(x: int, X: int)
    ensures TenWide(x).WellShaped() && OnRow(TenWide(x), 0)
    ensures TenWide(x).Left(0) == x && TenWide(x).Right(0) == x + 10
    ensures TenWide(x).Covers(X, 0) <==> x <= X < x + 10
  {
    var v := TenWide(x);
    assert v.LeftMargin(0) == 0 && v.RightMargin(0) == 0;
  }

  /** Of two displays the right one is listed first: the gap between them is never filled. */
  lemma JumpsOverAGap(X: int)
    requires 30 <= X < 50
    ensures var vs := [TenWide(50), TenWide(20)];
      AllShaped(vs) && !Covered(vs, X, 0) && !Fills(vs, 0, 0, 100, X)
  {
    var right, left := TenWide(50), TenWide(20);
    TenWideIs(50, X);
    TenWideIs(20, X);
    JumpsBetween([right, left], X);
  }

  lemma JumpsBetween(vs: seq<View>, X: int)
    requires |vs| == 2 && AllShaped(vs) && OnRow(vs[0], 0) && OnRow(vs[1], 0) && !Covered(vs, X, 0)
    requires 0 < vs[1].Left(0) <= X < vs[0].Left(0) && vs[0].Right(0) <= 100
    ensures !Fills(vs, 0, 0, 100, X)
  {
    assert vs[0].Left(0) < vs[0].Right(0);
    assert LookPast(vs, 0, 0, 0, 100) == Look(0, 100, 0);
    assert LookPast(vs, 0, 1, 0, 100) == Look(0, vs[0].Left(0), vs[0].Right(0));
    var look := LookPast(vs, 0, 2, 0, 100);
    assert look.end == vs[1].Left(0) && look.next >= vs[0].Right(0);
    if Fills(vs, 0, look.next, 100, X) {
      FillsOnlyBare(vs, 0, look.next, 100, X);
    }
  }
}
