/** Bounds of the layer compositing arithmetic (drivers/DisplayManager.cpp, common/graphics2d.hpp). */
module Compositing {
  import opened Maths
  import opened View

  /** No colour byte exceeds the pixel's opacity. */
  predicate Premultiplied(p: Pixel) {
    p.r <= 255 - p.a && p.g <= 255 - p.a && p.b <= 255 - p.a
  }

  ghost predicate AllPremultiplied(vs: seq<View>)
    requires forall i | 0 <= i < |vs| :: vs[i].WellFormed()
  {
    forall i, X, Y | 0 <= i < |vs| && vs[i].Covers(X, Y) :: Premultiplied(vs[i].PixelAt(X, Y))
  }

  /** premultiply_colour: scale the colour bytes by the opacity. */
  function Premultiply(p: Pixel): (q: Pixel)
    ensures q.a == p.a && Premultiplied(q)
    ensures p.a == 0 ==> q == p
    ensures p.a == 255 ==> q == BLACK.(a := 255)
    ensures q.r * 255 <= p.r * (255 - p.a) < (q.r + 1) * 255
    ensures q.g * 255 <= p.g * (255 - p.a) < (q.g + 1) * 255
    ensures q.b * 255 <= p.b * (255 - p.a) < (q.b + 1) * 255
  {
    ScaledBound(p.r, 255 - p.a); ScaledBound(p.g, 255 - p.a); ScaledBound(p.b, 255 - p.a);
    p.(r := p.r * (255 - p.a) / 255, g := p.g * (255 - p.a) / 255, b := p.b * (255 - p.a) / 255)
  }

  lemma ScaledBound(c: Byte, opacity: Byte)
    ensures 0 <= c * opacity / 255 <= opacity
  {
  }

  /** Unbounded colour sums: what the blending loop would compute with no clamp and no byte overflow. */
  datatype Sum = Sum(r: int, g: int, b: int)

  function SumOf(p: Pixel): Sum {
    Sum(p.r, p.g, p.b)
  }

  function AddScaled(acc: Sum, p: Pixel, visibility: Byte): Sum {
    Sum(acc.r + p.r * visibility / 255, acc.g + p.g * visibility / 255, acc.b + p.b * visibility / 255)
  }

  function ExactSum(vs: seq<View>, X: int, Y: int, bg: Pixel, acc: Sum, visibility: Byte): Sum
    requires forall i | 0 <= i < |vs| :: vs[i].WellFormed()
  {
    if vs == [] then AddScaled(acc, bg, visibility)
    else
      var v, rest := vs[|vs| - 1], vs[..|vs| - 1];
      if !v.Covers(X, Y) then ExactSum(rest, X, Y, bg, acc, visibility)
      else
        var read := v.PixelAt(X, Y);
        var acc' := AddScaled(acc, read, visibility);
        if v.SolidAt(X, Y) || visibility <= 255 - read.a then acc'
        else ExactSum(rest, X, Y, bg, acc', visibility - (255 - read.a))
  }

  predicate Fits(acc: Pixel, visibility: Byte) {
    acc.r + visibility <= 255 && acc.g + visibility <= 255 && acc.b + visibility <= 255
  }

  lemma ScaledChannel(c: Byte, opacity: Byte, visibility: Byte)
    requires c <= opacity
    ensures 0 <= c * visibility / 255 <= opacity
    ensures c * visibility / 255 <= visibility
  {
  }

  /** One layer keeps channel + remaining visibility within a byte, so its clamp never bites. */
  lemma LayerFits(acc: Pixel, read: Pixel, visibility: Byte)
    requires Fits(acc, visibility) && Premultiplied(read)
    ensures SumOf(AddLayer(acc, read, visibility)) == AddScaled(SumOf(acc), read, visibility)
    ensures visibility > 255 - read.a ==> Fits(AddLayer(acc, read, visibility), visibility - (255 - read.a))
  {
    ScaledChannel(read.r, 255 - read.a, visibility);
    ScaledChannel(read.g, 255 - read.a, visibility);
    ScaledChannel(read.b, 255 - read.a, visibility);
  }

  lemma BackgroundFits(acc: Pixel, bg: Pixel, visibility: Byte)
    requires Fits(acc, visibility)
    ensures SumOf(AddBackground(acc, bg, visibility)) == AddScaled(SumOf(acc), bg, visibility)
  {
    ScaledBound(bg.r, visibility); ScaledBound(bg.g, visibility); ScaledBound(bg.b, visibility);
  }

  /** Over any stack of premultiplied displays no clamp ever changes a value and no byte
      addition wraps: the loop computes the unclamped sum. */
  lemma {:induction false} AccumulateIsExact(vs: seq<View>, X: int, Y: int, bg: Pixel, acc: Pixel, visibility: Byte)
    requires forall i | 0 <= i < |vs| :: vs[i].WellFormed()
    requires AllPremultiplied(vs) && Fits(acc, visibility)
    ensures SumOf(Accumulate(vs, X, Y, bg, acc, visibility)) == ExactSum(vs, X, Y, bg, SumOf(acc), visibility)
  {
    if vs == [] {
      BackgroundFits(acc, bg, visibility);
    } else {
      var v, rest := vs[|vs| - 1], vs[..|vs| - 1];
      if !v.Covers(X, Y) {
        AccumulateIsExact(rest, X, Y, bg, acc, visibility);
      } else {
        var read := v.PixelAt(X, Y);
        LayerFits(acc, read, visibility);
        if !v.SolidAt(X, Y) && visibility > 255 - read.a {
          AccumulateIsExact(rest, X, Y, bg, AddLayer(acc, read, visibility), visibility - (255 - read.a));
        }
      }
    }
  }

  /** The blend every channel would see on its own. */
  function PlainBlend(below: Pixel, top: Pixel): Pixel
    requires Premultiplied(top)
  {
    ScaledBound(below.r, top.a); ScaledBound(below.g, top.a);
    ScaledBound(below.b, top.a); ScaledBound(below.a, top.a);
    Pixel(below.r * top.a / 255 + top.r, below.g * top.a / 255 + top.g,
          below.b * top.a / 255 + top.b, below.a * top.a / 255)
  }

  /** Blending a premultiplied pixel over anything is the plain per-channel sum: nothing carries. */
  lemma BlendWithoutCarry(below: Pixel, top: Pixel)
    requires Premultiplied(top)
    ensures Blend(below, top) == PlainBlend(below, top)
  {
  }

  /** Every colour byte of the blend is that channel's own sum. */
  predicate NothingCarries(below: Pixel, top: Pixel) {
    var blend := Blend(below, top);
    && blend.b == BlendChannel(below.b, top.b, top.a)
    && blend.g == BlendChannel(below.g, top.g, top.a)
    && blend.r == BlendChannel(below.r, top.r, top.a)
  }

  /** A pixel blends without a carry over everything exactly when it is premultiplied. Over some
      pixels, black for one, it may do so anyway. */
  lemma NothingCarriesIff(top: Pixel)
    ensures (forall below :: NothingCarries(below, top)) <==> Premultiplied(top)
  {
    if Premultiplied(top) {
      forall below ensures NothingCarries(below, top) {
        BlendWithoutCarry(below, top);
      }
    } else {
      var white := Pixel(255, 255, 255, 0);
      assert white.b * top.a / 255 == top.a;
      assert !NothingCarries(white, top);
    }
  }

  /** White over white at half transparency: the carry reaches the next channel. */
  lemma BlendCarriesOtherwise()
    ensures var white := Pixel(255, 255, 255, 128);
            && !Premultiplied(white)
            && Blend(Pixel(255, 254, 255, 0), white).g != BlendChannel(254, 255, 128) % 256
  {
  }

  /** Main result: a translucent pixel on top of any stack of premultiplied displays comes out
      as the plain blend, over a colour that is the unclamped sum of the layers beneath it. */
  lemma TranslucentPixelIsExact(vs: seq<View>, i: int, X: int, Y: int, bg: Pixel)
    requires AllShaped(vs) && AllPremultiplied(vs)
    requires IsTop(vs, i, X, Y) && !vs[i].SolidAt(X, Y) && vs[i].PixelAt(X, Y).a != 0
    ensures Composite(vs, X, Y, bg) == PlainBlend(Blending(vs[..i], X, Y, bg), vs[i].PixelAt(X, Y))
    ensures SumOf(Blending(vs[..i], X, Y, bg)) == ExactSum(vs[..i], X, Y, bg, Sum(0, 0, 0), 255)
  {
    CompositeOfTop(vs, i, X, Y, bg);
    assert vs[..i + 1][..i] == vs[..i];
    BlendWithoutCarry(Blending(vs[..i], X, Y, bg), vs[i].PixelAt(X, Y));
    AccumulateIsExact(vs[..i], X, Y, bg, BLACK, 255);
  }

  // ------------------------------------- the blending loop, from the bottom up

  /** How much light a display takes at a pixel. */
  function Shade(v: View, X: int, Y: int): nat
    requires v.WellFormed()
  {
    if !v.Covers(X, Y) then 0 else if v.SolidAt(X, Y) then 255 else 255 - v.PixelAt(X, Y).a
  }

  function ShadeOfAll(vs: seq<View>, X: int, Y: int): nat
    requires forall i | 0 <= i < |vs| :: vs[i].WellFormed()
  {
    if vs == [] then 0 else Shade(vs[0], X, Y) + ShadeOfAll(vs[1..], X, Y)
  }

  /** What is seen of what lies beneath all of the displays. */
  function Through(vs: seq<View>, X: int, Y: int): Byte
    requires forall i | 0 <= i < |vs| :: vs[i].WellFormed()
  {
    var shade := ShadeOfAll(vs, X, Y);
    if shade >= 255 then 0 else 255 - shade
  }

  /** The share of its colour that a display adds, seen through those above it. */
  function Share(v: View, above: seq<View>, X: int, Y: int): Sum
    requires v.WellFormed() && forall i | 0 <= i < |above| :: above[i].WellFormed()
  {
    if !v.Covers(X, Y) then Sum(0, 0, 0)
    else
      var t, p := Through(above, X, Y), v.rows[Y - v.y][X - v.x];
      Sum(p.r * t / 255, p.g * t / 255, p.b * t / 255)
  }

  function Shares(vs: seq<View>, X: int, Y: int): Sum
    requires forall i | 0 <= i < |vs| :: vs[i].WellFormed()
  {
    if vs == [] then Sum(0, 0, 0)
    else
      var first, others := Share(vs[0], vs[1..], X, Y), Shares(vs[1..], X, Y);
      Sum(first.r + others.r, first.g + others.g, first.b + others.b)
  }

  /** Beneath displays that nothing is seen through, nothing adds anything. */
  lemma {:induction false} BlockedBeneath(vs: seq<View>, above: seq<View>, X: int, Y: int)
    requires forall i | 0 <= i < |vs + above| :: (vs + above)[i].WellFormed()
    requires forall i | 0 <= i < |above| :: above[i].WellFormed()
    requires Through(above, X, Y) == 0
    ensures Through(vs + above, X, Y) == 0 && Shares(vs + above, X, Y) == Shares(above, X, Y)
  {
    if vs == [] {
      assert vs + above == above;
    } else {
      assert (vs + above)[1..] == vs[1..] + above;
      BlockedBeneath(vs[1..], above, X, Y);
    }
  }

  /** One channel of the blending: the shares of the displays, at most 255, and the background. */
  predicate ChannelIs(result: Byte, shares: int, background: Byte, through: Byte) {
    result == (Min(shares, 255) + background * through / 255) % 256
  }

  ghost predicate BlendedTo(result: Pixel, vs: seq<View>, X: int, Y: int, bg: Pixel)
    requires forall i | 0 <= i < |vs| :: vs[i].WellFormed()
  {
    var shares, through := Shares(vs, X, Y), Through(vs, X, Y);
    && ChannelIs(result.r, shares.r, bg.r, through)
    && ChannelIs(result.g, shares.g, bg.g, through)
    && ChannelIs(result.b, shares.b, bg.b, through)
  }

  ghost predicate CutAt255(acc: Pixel, shares: Sum) {
    acc.r == Min(shares.r, 255) && acc.g == Min(shares.g, 255) && acc.b == Min(shares.b, 255)
  }

  /** One more display beneath: its share joins the sum. */
  lemma LayerJoins(v: View, above: seq<View>, X: int, Y: int, acc: Pixel)
    requires v.WellFormed() && v.Covers(X, Y) && forall i | 0 <= i < |above| :: above[i].WellFormed()
    requires CutAt255(acc, Shares(above, X, Y))
    ensures CutAt255(AddLayer(acc, v.PixelAt(X, Y), Through(above, X, Y)), Shares([v] + above, X, Y))
  {
    assert ([v] + above)[1..] == above;
    SumJoins(acc, v.PixelAt(X, Y), Through(above, X, Y), Shares(above, X, Y));
  }

  lemma SumJoins(acc: Pixel, read: Pixel, t: Byte, shares: Sum)
    requires CutAt255(acc, shares)
    ensures CutAt255(AddLayer(acc, read, t),
      Sum(read.r * t / 255 + shares.r, read.g * t / 255 + shares.g, read.b * t / 255 + shares.b))
  {
    var r, g, b := read.r * t / 255, read.g * t / 255, read.b * t / 255;
    ScaledBound(read.r, t); ScaledBound(read.g, t); ScaledBound(read.b, t);
    assert AddLayer(acc, read, t) == acc.(r := Min(acc.r + r, 255), g := Min(acc.g + g, 255), b := Min(acc.b + b, 255));
  }

  lemma BackgroundJoins(vs: seq<View>, X: int, Y: int, bg: Pixel, acc: Pixel)
    requires forall i | 0 <= i < |vs| :: vs[i].WellFormed()
    requires CutAt255(acc, Shares(vs, X, Y))
    ensures BlendedTo(AddBackground(acc, bg, Through(vs, X, Y)), vs, X, Y, bg)
  {
    var visibility := Through(vs, X, Y);
    ScaledBound(bg.r, visibility); ScaledBound(bg.g, visibility); ScaledBound(bg.b, visibility);
  }

  lemma {:induction false} AccumulateIsSum(vs: seq<View>, above: seq<View>, X: int, Y: int, bg: Pixel, acc: Pixel)
    requires forall i | 0 <= i < |vs| :: vs[i].WellFormed()
    requires forall i | 0 <= i < |above| :: above[i].WellFormed()
    requires Through(above, X, Y) > 0 && CutAt255(acc, Shares(above, X, Y))
    ensures BlendedTo(Accumulate(vs, X, Y, bg, acc, Through(above, X, Y)), vs + above, X, Y, bg)
  {
    if vs == [] {
      assert vs + above == above;
      BackgroundJoins(above, X, Y, bg, acc);
    } else {
      var v, rest := vs[|vs| - 1], vs[..|vs| - 1];
      var over, visibility := [v] + above, Through(above, X, Y);
      assert vs + above == rest + over && over[1..] == above;
      if !v.Covers(X, Y) {
        AccumulateIsSum(rest, over, X, Y, bg, acc);
      } else {
        var acc' := AddLayer(acc, v.PixelAt(X, Y), visibility);
        LayerJoins(v, above, X, Y, acc);
        if v.SolidAt(X, Y) || visibility <= 255 - v.PixelAt(X, Y).a {
          BlockedBeneath(rest, over, X, Y);
          NothingThrough(rest + over, X, Y, bg, acc');
        } else {
          AccumulateIsSum(rest, over, X, Y, bg, acc');
        }
      }
    }
  }

  lemma NothingThrough(vs: seq<View>, X: int, Y: int, bg: Pixel, acc: Pixel)
    requires forall i | 0 <= i < |vs| :: vs[i].WellFormed()
    requires Through(vs, X, Y) == 0 && CutAt255(acc, Shares(vs, X, Y))
    ensures BlendedTo(acc, vs, X, Y, bg)
  {
  }

  /** The blending loop, for any displays: every display beneath adds its colour as far as it is seen
      through those above it, the sum is cut at 255, and the background is added the same way. */
  lemma BlendingIsSum(vs: seq<View>, X: int, Y: int, bg: Pixel)
    requires forall i | 0 <= i < |vs| :: vs[i].WellFormed()
    ensures BlendedTo(Blending(vs, X, Y, bg), vs, X, Y, bg)
  {
    assert vs + [] == vs;
    AccumulateIsSum(vs, [], X, Y, bg, BLACK);
  }

  /** Bit for bit: byte `c` holds the sum, with its lowest bit set if the byte below it ran over. */
  predicate OredByte(c: Byte, sum: nat, below: nat) {
    c / 2 == sum % 256 / 2 && (c % 2 == 1 <==> sum % 2 == 1 || below > 255)
  }

  lemma OrCarryBits(sum: nat, below: nat)
    ensures OredByte(OrCarry(sum, below > 255), sum, below)
  {
    var low := sum % 256;
    assert low % 2 == sum % 2;
  }

  /** Two-argument blend_colours, for any colours. */
  lemma BlendBits(below: Pixel, top: Pixel)
    ensures var b, g, r := below.b * top.a / 255 + top.b, below.g * top.a / 255 + top.g, below.r * top.a / 255 + top.r;
      var c := Blend(below, top);
      OredByte(c.b, b, 0) && OredByte(c.g, g, b) && OredByte(c.r, r, g) && OredByte(c.a, below.a * top.a / 255, r)
  {
    var b, g, r := BlendChannel(below.b, top.b, top.a), BlendChannel(below.g, top.g, top.a),
      BlendChannel(below.r, top.r, top.a);
    var a: nat := below.a * top.a / 255;
    OrCarryBits(b, 0);
    OrCarryBits(g, b);
    OrCarryBits(r, g);
    OrCarryBits(a, r);
    assert Blend(below, top) ==
      Pixel(OrCarry(r, g > 255), OrCarry(g, b > 255), OrCarry(b, false), OrCarry(a, r > 255));
  }

  /** Main result: what is shown where a translucent display is on top, of any stack of any pixels. */
  lemma TranslucentValue(vs: seq<View>, i: int, X: int, Y: int, bg: Pixel)
    requires AllShaped(vs) && IsTop(vs, i, X, Y) && !vs[i].SolidAt(X, Y) && vs[i].PixelAt(X, Y).a != 0
    ensures exists beneath: Pixel ::
      BlendedTo(beneath, vs[..i], X, Y, bg) && beneath.a == 0
      && Composite(vs, X, Y, bg) == Blend(beneath, vs[i].rows[Y - vs[i].y][X - vs[i].x])
  {
    CompositeOfTop(vs, i, X, Y, bg);
    assert vs[..i + 1][..i] == vs[..i];
    BlendingIsSum(vs[..i], X, Y, bg);
    BlendingIsOpaque(vs[..i], X, Y, bg, BLACK, 255);
  }

  lemma {:induction false} BlendingIsOpaque(vs: seq<View>, X: int, Y: int, bg: Pixel, acc: Pixel, visibility: Byte)
    requires forall i | 0 <= i < |vs| :: vs[i].WellFormed()
    ensures Accumulate(vs, X, Y, bg, acc, visibility).a == acc.a
  {
    if vs != [] {
      var v, rest := vs[|vs| - 1], vs[..|vs| - 1];
      if !v.Covers(X, Y) {
        BlendingIsOpaque(rest, X, Y, bg, acc, visibility);
      } else {
        var read := v.PixelAt(X, Y);
        if !v.SolidAt(X, Y) && visibility > 255 - read.a {
          BlendingIsOpaque(rest, X, Y, bg, AddLayer(acc, read, visibility), visibility - (255 - read.a));
        }
      }
    }
  }
}
