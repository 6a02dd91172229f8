/**
 * The collaborators of the title renderer, seen only through what the
 * renderer asks of them: the font rasterizer (crossfont) and the pixel
 * buffer library (tiny_skia).  Each foreign call is a field of a datatype
 * value, so every model member is a function of the answers it gets.
 */
module Backend {
  import opened Wrappers

  newtype u8 = x: int | 0 <= x < 0x100
  newtype u32 = x: int | 0 <= x < 0x1_0000_0000

  const I32Max: int := 0x7fff_ffff

  /** Rust's `x as u32` on an i32 value: the two's-complement bits reread as unsigned. */
  function AsU32(x: int): (r: u32)
    ensures 0 <= x < 0x1_0000_0000 ==> r as int == x
    ensures -0x1_0000_0000 <= x < 0 ==> r as int == x + 0x1_0000_0000
  {
    (x % 0x1_0000_0000) as u32
  }

  /** The character every metrics refresh loads first ('m'). */
  const ReferenceChar: char := 'm'

  /** tiny_skia's non-premultiplied colour, channels as reals (the library keeps them in [0, 1]; the model does not). */
  datatype Color = Color(red: real, green: real, blue: real, alpha: real)

  /** tiny_skia's 8-bit colour, the result of `premultiply().to_color_u8()`. */
  datatype ColorU8 = ColorU8(red: u8, green: u8, blue: u8, alpha: u8)

  /** A rasterized glyph's pixels: three bytes per pixel, or four with alpha. */
  datatype GlyphBuffer = Rgb(bytes: seq<u8>) | Rgba(bytes: seq<u8>)
  {
    /** The chunk size the renderer splits this buffer into. */
    function Stride(): (n: nat)
      ensures n == 3 || n == 4
    {
      if Rgb? then 3 else 4
    }
  }

  /**
   * Splitting `len` bytes into chunks of `n` leaves no final chunk shorter
   * than three bytes: reading the red, green and blue bytes of every chunk
   * stays in bounds.
   */
  predicate WholeChunks(len: nat, n: nat)
    requires n == 3 || n == 4
  {
    if n == 3 then len % 3 == 0 else len % 4 == 0 || len % 4 == 3
  }

  /** crossfont's `RasterizedGlyph`: bearings, extent, horizontal advance and pixels. */
  datatype Glyph = Glyph(left: int, top: int, width: int, height: int, advance: int, buffer: GlyphBuffer)

  /** Line metrics after `round() as i32`: the rounded line height and descent. */
  datatype Metrics = Metrics(lineHeight: int, descent: int)

  datatype FontError =
    | RasterizerUnavailable   // Rasterizer::new failed
    | FontUnavailable         // load_font failed
    | GlyphUnavailable        // get_glyph of the reference character failed
    | MetricsUnavailable      // metrics failed

  /**
   * The font rasterizer, for the one font and size the renderer loads.
   * Lookups depend on the device pixel ratio the rasterizer currently holds.
   */
  datatype Fonts = Fonts(
    rasterizerOk: bool,                    // Rasterizer::new(1.0, false) succeeds
    fontOk: bool,                          // load_font of the sans-serif face at size 10 succeeds
    glyph: (u32, char) -> Option<Glyph>,   // get_glyph at a device pixel ratio
    lineMetrics: u32 -> Option<Metrics>,   // metrics at a device pixel ratio
    kerning: (u32, char, char) -> int)     // horizontal kerning of a pair, already `as i32`
  {
    /**
     * Every glyph the rasterizer hands out splits into whole chunks and has
     * a non-negative width (the renderer panics on anything else).
     */
    ghost predicate Valid() {
      forall d: u32, c: char :: glyph(d, c).Some? ==>
        WholeChunks(|glyph(d, c).value.buffer.bytes|, glyph(d, c).value.buffer.Stride()) &&
        glyph(d, c).value.width >= 0
    }
  }

  /** The pixel buffer library. */
  datatype Skia = Skia(
    canAllocate: (u32, u32) -> bool,       // Pixmap::new(width, height) is Some
    canView: (nat, u32, u32) -> bool,      // PixmapRef::from_bytes over that many bytes is Some
    premultiply: Color -> ColorU8)         // premultiply().to_color_u8()
}
