/** The NeoPixel strip as the renderers see it: a fixed buffer of RGBW
    colours that `setPixelColor` writes in place and `show` commits to the
    hardware. Each commit is recorded as a copy of the buffer in a ghost log. */
module Pixels {

  /** A `uint8_t` colour channel. */
  type Byte = x: int | 0 <= x < 256

  /** A pixel colour: four channels, or the colour the driver's rainbow fill
      gives pixel `index` for a first hue, left uninterpreted. */
  datatype Color =
    | Rgbw(r: Byte, g: Byte, b: Byte, w: Byte)
    | RainbowPixel(firstPixelHue: int, index: nat)

  /** `totalLEDs2`: the strip's pixel count. */
  const NumPixels: nat := 16

  const Off := Rgbw(0, 0, 0, 0)

  /** Every pixel the same colour. */
  function Uniform(c: Color): (s: seq<Color>)
    ensures |s| == NumPixels
    ensures forall i | 0 <= i < |s| :: s[i] == c
  {
    seq(NumPixels, _ => c)
  }

  /** The buffer after the driver's rainbow fill from `firstPixelHue`. */
  function RainbowFrame(firstPixelHue: int): (s: seq<Color>)
    ensures |s| == NumPixels
  {
    seq(NumPixels, (i: nat) => RainbowPixel(firstPixelHue, i))
  }

  class Strip {
    const pixels: array<Color>
    /** Every buffer committed with `show`, oldest first. */
    ghost var frames: seq<seq<Color>>

    ghost predicate Valid()
      reads this
    {
      pixels.Length == NumPixels
    }

    /** `begin()` and the first `show()`: every pixel off and committed. */
    constructor ()
      ensures Valid() && fresh(pixels)
      ensures pixels[..] == Uniform(Off) && frames == [Uniform(Off)]
    {
      pixels := new Color[NumPixels](_ => Off);
      new;
      frames := [pixels[..]];
    }

    /** `setPixelColor(i, c)`: an index past the end is ignored. */
    method SetPixelColor(i: nat, c: Color)
      modifies pixels
      ensures pixels[..] == if i < pixels.Length then old(pixels[..])[i := c] else old(pixels[..])
    {
      if i < pixels.Length {
        pixels[i] := c;
      }
    }

    /** `show()`: the buffer as it stands now becomes the newest commit. */
    method Show()
      modifies this
      ensures frames == old(frames) + [pixels[..]]
    {
      frames := frames + [pixels[..]];
    }

    /** `rainbow(firstPixelHue)`: the driver's hue fill of the whole buffer. */
    method Rainbow(firstPixelHue: int)
      requires Valid()
      modifies pixels
      ensures pixels[..] == RainbowFrame(firstPixelHue)
    {
      forall i | 0 <= i < pixels.Length {
        pixels[i] := RainbowPixel(firstPixelHue, i);
      }
    }
  }
}
