/**
 * The option fields of the sprite/charset converter and how a file name's
 * options update them. The options arrive already parsed from the file name
 * (`-bgX`, `-fgX`, `-mcXY`, `-chXX`, `-syXX`, one hexadecimal digit per `X`).
 */
module SpriteSettings {
  import opened Wrappers

  /** A snapshot of the converter's option fields, as the encoding steps read them. */
  datatype Settings = Settings(
    pixelWidth: int,  // bits per pixel: 1 = hires, 2 = multicolour
    fgIndex: int,     // palette index drawn as '1' in hires, -1 when unset
    bgIndex: int,     // palette index of the background ('0' / '00')
    mc1Index: int,    // palette index of multicolour 1 ('01')
    mc2Index: int,    // palette index of multicolour 2
    chOffset: int,    // >= 0 selects charset mode and offsets every character index
    syOffset: int)    // y of the first sprite row
  {
    /** What the option fields always satisfy: a pixel width of 1 or 2 and two-digit offsets. */
    predicate Valid()
    {
      (pixelWidth == 1 || pixelWidth == 2) && -1 <= chOffset < 256 && 0 <= syOffset < 256
    }

    /** Charset mode (rather than sprite mode) is selected by a non-negative character offset. */
    predicate CharMode()
    {
      chOffset >= 0
    }
  }

  /** The options found in a file name, each as the value of its hexadecimal digits. */
  datatype Options = Options(
    bg: Option<int>,
    fg: Option<int>,
    mc: Option<(int, int)>,
    ch: Option<int>,
    sy: Option<int>)
  {
    /** One hexadecimal digit per colour, two per offset. */
    predicate Parsed()
    {
      && (bg.Some? ==> 0 <= bg.value < 16)
      && (fg.Some? ==> 0 <= fg.value < 16)
      && (mc.Some? ==> 0 <= mc.value.0 < 16 && 0 <= mc.value.1 < 16)
      && (ch.Some? ==> 0 <= ch.value < 256)
      && (sy.Some? ==> 0 <= sy.value < 256)
    }
  }

  /** The converter object: its option fields persist from one image to the next. */
  class Converter {
    var pixelWidth: int
    var fgIndex: int
    var bgIndex: int
    var mc1Index: int
    var mc2Index: int
    var chOffset: int
    var syOffset: int

    /** The fields as one value. */
    function Current(): Settings
      reads this
    {
      Settings(pixelWidth, fgIndex, bgIndex, mc1Index, mc2Index, chOffset, syOffset)
    }

    /** Hires, no foreground, background 0 (black), multicolours 1 (white) and 2 (red), sprite mode. */
    constructor ()
      ensures Current() == Settings(1, -1, 0, 1, 2, -1, 0)
      ensures Current().Valid() && !Current().CharMode()
    {
      pixelWidth, fgIndex, bgIndex, mc1Index, mc2Index, chOffset, syOffset := 1, -1, 0, 1, 2, -1, 0;
    }

    /**
     * Takes the background from the image's transparent index (-1 when it has
     * none), then applies the file name's options in the source's order:
     * `-bg` and `-fg` force hires, and `-mc`, applied after them, forces
     * multicolour. The foreground, the charset offset and the sprite y-offset
     * fall back to their defaults when absent; the multicolours and, without
     * any colour option, the pixel width keep their previous values.
     */
    method UpdateSettings(transparent: int, opts: Options)
      requires Current().Valid() && opts.Parsed()
      modifies this
      ensures Current().Valid()
      ensures bgIndex == if opts.bg.Some? then opts.bg.value else transparent
      ensures fgIndex == if opts.fg.Some? then opts.fg.value else -1
      ensures pixelWidth == if opts.mc.Some? then 2
                            else if opts.bg.Some? || opts.fg.Some? then 1
                            else old(pixelWidth)
      ensures mc1Index == if opts.mc.Some? then opts.mc.value.0 else old(mc1Index)
      ensures mc2Index == if opts.mc.Some? then opts.mc.value.1 else old(mc2Index)
      ensures chOffset == if opts.ch.Some? then opts.ch.value else -1
      ensures syOffset == if opts.sy.Some? then opts.sy.value else 0
    {
      bgIndex := transparent;
      if opts.bg.Some? {
        bgIndex := opts.bg.value;
        pixelWidth := 1;
      }
      fgIndex := -1;
      if opts.fg.Some? {
        fgIndex := opts.fg.value;
        pixelWidth := 1;
      }
      if opts.mc.Some? {
        mc1Index := opts.mc.value.0;
        mc2Index := opts.mc.value.1;
        pixelWidth := 2;
      }
      chOffset := -1;
      if opts.ch.Some? {
        chOffset := opts.ch.value;
      }
      syOffset := 0;
      if opts.sy.Some? {
        syOffset := opts.sy.value;
      }
    }
  }
}
