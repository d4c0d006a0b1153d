/** The mode that set_mode of drivers/x86/graphics/BochsVga.cpp asks the hardware for. */
module VideoMode {
  import opened Maths

  datatype Format = Grey8 | Rgb565 | Rgb8 | Rgba8

  datatype Mode = Mode(width: nat, height: nat, bpp: nat)

  datatype Choice = Chosen(mode: Mode) | NotSupported

  /** The bits that a pixel of the format takes. */
  function DepthOf(format: Format): nat {
    match format
    case Grey8 => 8
    case Rgb565 => 16
    case Rgb8 => 24
    case Rgba8 => 32
  }

  /** The switch over the format: without a break every case runs on into those after it, so the
      result is 32 for every format, and the format's own depth exactly for the last one. */
  method BitsPerPixel(format: Format) returns (bpp: nat)
    ensures bpp == 32
    ensures bpp == DepthOf(format) <==> format == Rgba8
  {
    bpp := 32;
    var entered := format == Grey8;
    if entered {
      bpp := 8;
    }
    entered := entered || format == Rgb565;
    if entered {
      bpp := 16;
    }
    entered := entered || format == Rgb8;
    if entered {
      bpp := 24;
    }
    entered := entered || format == Rgba8;
    if entered {
      bpp := 32;
    }
  }

  function RoundedTo8(x: nat): (r: nat)
    ensures r <= x < r + 8 && r % 8 == 0
  {
    x - x % 8
  }

  function MemoryOf(mode: Mode): nat {
    mode.width * mode.height * (mode.bpp / 8)
  }

  /** totalPixels / width * height */
  function SquareOfHeight(maxMemory: nat, bytes: nat, width: nat, height: nat): nat
    requires bytes > 0 && width > 0
  {
    var totalPixels: nat := maxMemory / bytes;
    var share: nat := totalPixels / width;
    share * height
  }

  /** requestHeight * width / height, rounded down to a multiple of 8 */
  function ScaledWidth(h: nat, width: nat, height: nat): (w: nat)
    requires height > 0
    ensures w % 8 == 0
  {
    RoundedTo8(h * width / height)
  }

  /** The mode asked for does not fit the video memory. */
  predicate TooLarge(width: nat, height: nat, maxMemory: nat) {
    width * height * 4 > maxMemory
  }

  /** The two products that could leave U32 do not: the size of the mode asked for, and in the
      fallback the square of its height. */
  predicate InRange(width: nat, height: nat, maxBpp: nat, maxMemory: nat, maximum: nat)
    requires maxBpp >= 8
  {
    && width * height * 4 <= maximum
    && (width > 0 && TooLarge(width, height, maxMemory) ==>
         SquareOfHeight(maxMemory, Min(32, maxBpp) / 8, width, height) < maximum)
  }

  /** The fallback for a mode that is too large for the video memory: about the same shape, smaller.
      The remaining product, of the new height and the width, then is in range too. */
  method FitMemory(width: nat, height: nat, bytes: nat, maxMemory: nat, maximum: nat) returns (w: nat, h: nat)
    requires width > 0 && height > 0 && bytes > 0 && TooLarge(width, height, maxMemory)
    requires width * height * 4 <= maximum && SquareOfHeight(maxMemory, bytes, width, height) < maximum
    ensures IsRoot(h, SquareOfHeight(maxMemory, bytes, width, height)) && w == ScaledWidth(h, width, height)
    ensures h * width <= maximum
  {
    var root, divided := Sqrt(SquareOfHeight(maxMemory, bytes, width, height), maximum);
    h := root;
    ProductInRange(maxMemory, bytes, width, height, root);
    w := ScaledWidth(h, width, height);
  }

  /** Every mode asked for fits the video memory and has a width that is a multiple of 8. */
  method ChooseMode(width: nat, height: nat, format: Format, maxWidth: nat, maxHeight: nat, maxBpp: nat,
                    maxMemory: nat, acceptSuggestion: bool, maximum: nat)
    returns (choice: Choice)
    requires maxBpp >= 8 && InRange(width, height, maxBpp, maxMemory, maximum)
    ensures choice.Chosen? ==> choice.mode.width % 8 == 0 && MemoryOf(choice.mode) <= maxMemory
    ensures choice.Chosen? ==>
      choice.mode.width * choice.mode.height * (choice.mode.bpp / 8) <= maxMemory
    ensures choice.Chosen? && !acceptSuggestion ==> choice.mode == Mode(width, height, 32)
    ensures width % 8 == 0 && 0 < width <= maxWidth && 0 < height <= maxHeight && maxBpp >= 32 ==>
      (width * height * 4 <= maxMemory ==> choice == Chosen(Mode(width, height, 32)))
    ensures choice.Chosen? && !TooLarge(width, height, maxMemory) ==>
      choice.mode == Mode(RoundedTo8(Min(width, maxWidth)), Min(height, maxHeight), Min(32, maxBpp))
    ensures choice.Chosen? && TooLarge(width, height, maxMemory) ==>
      choice.mode.bpp == Min(32, maxBpp) && IsFallback(choice.mode, width, height, maxMemory)
    ensures choice.Chosen? && width <= maxWidth && height <= maxHeight && maxBpp >= 32 ==>
      choice.mode.width <= maxWidth && choice.mode.height <= maxHeight
    ensures choice.NotSupported? <==>
      (width % 8 != 0 || RoundedTo8(Min(width, maxWidth)) < 1 || Min(height, maxHeight) < 1
      || (!acceptSuggestion &&
          (width > maxWidth || height > maxHeight || maxBpp < 32 || TooLarge(width, height, maxMemory))))
  {
    if width % 8 != 0 {
      return NotSupported;
    }
    var bpp := BitsPerPixel(format);
    var requestBpp := Min(bpp, maxBpp);
    var requestWidth := RoundedTo8(Min(width, maxWidth));
    var requestHeight := Min(height, maxHeight);
    if requestWidth < 1 || requestHeight < 1 {
      return NotSupported;
    }
    if !acceptSuggestion
      && (requestWidth != width || requestHeight != height || requestBpp != bpp
        || width * height * (bpp / 8) > maxMemory)
    {
      return NotSupported;
    }
    if width * height * (bpp / 8) > maxMemory {
      requestWidth, requestHeight := FitMemory(width, height, requestBpp / 8, maxMemory, maximum);
      FallbackFits(maxMemory, requestBpp / 8, width, height, requestHeight);
      if requestBpp == 32 {
        FallbackShrinks(maxMemory, width, height, requestHeight);
      }
    } else {
      ClippedFits(width, height, requestWidth, requestHeight, requestBpp / 8);
    }
    choice := Chosen(Mode(requestWidth, requestHeight, requestBpp));
  }

  /** The size that the fallback arrives at. */
  predicate IsFallback(mode: Mode, width: nat, height: nat, maxMemory: nat) {
    && width > 0 && height > 0 && mode.bpp >= 8
    && IsRoot(mode.height, SquareOfHeight(maxMemory, mode.bpp / 8, width, height))
    && mode.width == ScaledWidth(mode.height, width, height)
  }

  // ------------------------------------------------------ products and quotients

  lemma MulGrows(a: nat, b: nat, c: nat)
    requires a <= b
    ensures a * c <= b * c
  {
  }

  /** A common factor cancels. */
  lemma Cancel(a: nat, b: nat, c: nat)
    requires a * c < b * c
    ensures a < b
  {
    if a >= b {
      MulGrows(b, a, c);
    }
  }

  lemma SquareCancels(a: nat, b: nat)
    requires a * a < b * b
    ensures a < b
  {
    if a >= b {
      SquaresGrow(b, a);
    }
  }

  lemma QuotientTimes(a: nat, b: nat)
    requires b > 0
    ensures a / b * b <= a < (a / b + 1) * b
    ensures a / b <= a
  {
    assert a == b * (a / b) + a % b;
    MulGrows(1, b, a / b);
  }

  lemma QuotientBelow(a: nat, b: nat, c: nat)
    requires b > 0
    ensures a / b < c <==> a < c * b
  {
    QuotientTimes(a, b);
    var q := a / b;
    if q < c {
      MulGrows(q + 1, c, b);
    } else {
      MulGrows(c, q, b);
    }
  }

  lemma Rearrange(a: nat, b: nat, c: nat)
    ensures a * b * c == a * c * b == b * c * a
  {
  }

  // -------------------------------------------------------- what the modes need

  lemma ClippedFits(width: nat, height: nat, w: nat, h: nat, bytes: nat)
    requires w <= width && h <= height && bytes <= 4
    ensures w * h * bytes <= width * height * 4
  {
    MulGrows(w, width, h);
    MulGrows(h, height, width);
    MulGrows(w * h, width * height, bytes);
    MulGrows(bytes, 4, width * height);
  }

  /** The height squared is at most pixels / width * height, so scaling the width down by the same
      factor leaves at most all the pixels. */
  lemma FallbackFits(memory: nat, bytes: nat, width: nat, height: nat, root: nat)
    requires bytes > 0 && width > 0 && height > 0 && IsRoot(root, SquareOfHeight(memory, bytes, width, height))
    ensures ScaledWidth(root, width, height) * root * bytes <= memory
  {
    var pixels := memory / bytes;
    var w := ScaledWidth(root, width, height);
    QuotientTimes(root * width, height);
    MulGrows(w, root * width / height, height);
    ScaledDown(w, root, width, height, pixels / width);
    QuotientTimes(pixels, width);
    MulGrows(w * root, pixels, bytes);
    QuotientTimes(memory, bytes);
  }

  lemma ScaledDown(w: nat, root: nat, width: nat, height: nat, share: nat)
    requires height > 0 && w * height <= root * width && root * root <= share * height
    ensures w * root <= share * width
  {
    MulGrows(w * height, root * width, root);
    Rearrange(w, height, root);
    Rearrange(root, width, root);
    MulGrows(root * root, share * height, width);
    Rearrange(share, height, width);
    if w * root > share * width {
      MulGrows(share * width + 1, w * root, height);
    }
  }

  /** For a mode that is too large the share of the pixels per column is below four times the
      height, and below the height when the fallback keeps four bytes a pixel. */
  lemma ShareBelow(memory: nat, bytes: nat, width: nat, height: nat)
    requires bytes > 0 && width > 0 && TooLarge(width, height, memory)
    ensures memory / bytes / width < 4 * height
    ensures bytes == 4 ==> memory / bytes / width < height
  {
    var pixels: nat := memory / bytes;
    QuotientTimes(memory, bytes);
    QuotientTimes(pixels, width);
    FewerThan(pixels / width, pixels, width, height, memory, 4);
    if bytes == 4 {
      PixelsBelow(pixels, width * height, memory);
      FewerThan(pixels / width, pixels, width, height, pixels, 1);
    }
  }

  lemma PixelsBelow(pixels: nat, asked: nat, memory: nat)
    requires pixels * 4 <= memory < asked * 4
    ensures pixels < asked
  {
  }

  lemma FewerThan(share: nat, pixels: nat, width: nat, height: nat, bound: nat, factor: nat)
    requires share * width <= pixels <= bound < width * height * factor
    ensures share < factor * height
  {
    Rearrange(width, height, factor);
    Rearrange(factor, height, width);
    Cancel(share, factor * height, width);
  }

  lemma RootBelow(root: nat, share: nat, height: nat, bound: nat, factor: nat)
    requires root * root <= share * height && share < factor * height && factor * height * height == bound * bound
      && height > 0
    ensures root < bound
  {
    MulGrows(share + 1, factor * height, height);
    assert (share + 1) * height == share * height + height;
    SquareCancels(root, bound);
  }

  lemma TwiceSquared(a: nat)
    ensures 4 * a * a == (2 * a) * (2 * a)
  {
  }

  lemma DoubledInRange(root: nat, width: nat, height: nat)
    requires root <= 2 * height
    ensures root * width <= width * height * 4
  {
    MulGrows(root, 2 * height, width);
    Rearrange(2, height, width);
    Rearrange(width, height, 4);
  }

  lemma RootBelowDouble(root: nat, share: nat, height: nat)
    requires height > 0 && root * root <= share * height && share < 4 * height
    ensures root < 2 * height
  {
    TwiceSquared(height);
    RootBelow(root, share, height, 2 * height, 4);
  }

  lemma ProductInRange(memory: nat, bytes: nat, width: nat, height: nat, root: nat)
    requires bytes > 0 && width > 0 && height > 0 && TooLarge(width, height, memory)
    requires IsRoot(root, SquareOfHeight(memory, bytes, width, height))
    ensures root * width <= width * height * 4
  {
    ShareBelow(memory, bytes, width, height);
    RootBelowDouble(root, memory / bytes / width, height);
    DoubledInRange(root, width, height);
  }

  /** With four bytes a pixel the fallback is no larger than the mode asked for, so it keeps within
      whatever bounds that kept. */
  lemma FallbackShrinks(memory: nat, width: nat, height: nat, root: nat)
    requires width > 0 && height > 0 && TooLarge(width, height, memory)
    requires IsRoot(root, SquareOfHeight(memory, 4, width, height))
    ensures root < height && ScaledWidth(root, width, height) <= width
  {
    ShareBelow(memory, 4, width, height);
    RootBelow(root, memory / 4 / width, height, height, 1);
    MulGrows(root, height, width);
    QuotientBelow(root * width, height, width + 1);
  }

  lemma RootWithinIff(root: nat, x: nat, bound: nat)
    requires IsRoot(root, x)
    ensures root <= bound <==> x < (bound + 1) * (bound + 1)
  {
    if root <= bound {
      SquaresGrow(root + 1, bound + 1);
    } else {
      SquaresGrow(bound + 1, root);
    }
  }

  lemma RoundedWithinIff(x: nat, bound: nat)
    ensures RoundedTo8(x) <= bound <==> x < RoundedTo8(bound) + 8
  {
  }

  /** The least height whose width, scaled to the shape, is more than the hardware can do. */
  function TooHigh(width: nat, height: nat, maxWidth: nat): nat
    requires width > 0
  {
    ((RoundedTo8(maxWidth) + 8) * height + width - 1) / width
  }

  lemma BelowQuotient(h: nat, k: nat, width: nat)
    requires width > 0
    ensures h * width < k <==> h < (k + width - 1) / width
  {
    QuotientBelow(k + width - 1, width, h + 1);
    assert (h + 1) * width == h * width + width;
  }

  lemma WidthWithinIff(h: nat, width: nat, height: nat, maxWidth: nat)
    requires width > 0 && height > 0
    ensures ScaledWidth(h, width, height) <= maxWidth <==> h < TooHigh(width, height, maxWidth)
  {
    RoundedWithinIff(h * width / height, maxWidth);
    QuotientBelow(h * width, height, RoundedTo8(maxWidth) + 8);
    BelowQuotient(h, (RoundedTo8(maxWidth) + 8) * height, width);
  }

  /** The fallback scales the size asked for, which may be beyond the hardware. It stays within the
      hardware's bounds exactly if the square it takes the root of is small enough for both. */
  lemma FallbackWithinIff(mode: Mode, width: nat, height: nat, maxWidth: nat, maxHeight: nat, maxMemory: nat)
    requires IsFallback(mode, width, height, maxMemory)
    ensures var square := SquareOfHeight(maxMemory, mode.bpp / 8, width, height);
      && (mode.height <= maxHeight <==> square < (maxHeight + 1) * (maxHeight + 1))
      && (mode.width <= maxWidth <==>
          square < TooHigh(width, height, maxWidth) * TooHigh(width, height, maxWidth))
  {
    var square, bound := SquareOfHeight(maxMemory, mode.bpp / 8, width, height), TooHigh(width, height, maxWidth);
    RootWithinIff(mode.height, square, maxHeight);
    WidthWithinIff(mode.height, width, height, maxWidth);
    BelowQuotient(0, (RoundedTo8(maxWidth) + 8) * height, width);
    RootWithinIff(mode.height, square, bound - 1);
  }

  lemma ScaledWidthIs(h: nat, width: nat, height: nat)
    requires height > 0
    ensures ScaledWidth(h, width, height) * height <= h * width < (ScaledWidth(h, width, height) + 8) * height
  {
    var q := h * width / height;
    QuotientTimes(h * width, height);
    MulGrows(ScaledWidth(h, width, height), q, height);
    MulGrows(q + 1, ScaledWidth(h, width, height) + 8, height);
  }

  /** The fallback is as large as it can be: its height is the root of the pixels scaled to the shape,
      rounded down, and its width is what the shape gives, rounded down to a multiple of 8. */
  lemma FallbackShape(mode: Mode, width: nat, height: nat, maxMemory: nat)
    requires IsFallback(mode, width, height, maxMemory)
    ensures var pixels := maxMemory / (mode.bpp / 8);
      mode.height * mode.height <= pixels / width * height < (mode.height + 1) * (mode.height + 1)
    ensures mode.width % 8 == 0 && mode.width * height <= mode.height * width < (mode.width + 8) * height
  {
    ScaledWidthIs(mode.height, width, height);
  }

  /** 2560 x 1600 on hardware that can do 1024 x 768 with 8 MiB: the fallback asks for 1824 x 1144. */
  lemma FallbackBeyondHardware()
    ensures IsFallback(Mode(1824, 1144, 32), 2560, 1600, 0x80_0000)
  {
    assert SquareOfHeight(0x80_0000, 4, 2560, 1600) == 1310400;
  }
}
