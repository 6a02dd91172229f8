# TitleText: the title renderer of sctk-adwaita, modelled in Dafny

`TitleText` renders a window title into a small RGBA bitmap for the
client-side decorations. It holds the title string, a scale, the font
metrics, a colour and the cached bitmap. Each setter compares the new value
with the stored one and re-renders only when they differ. A render pass does
the following:

- It collects one glyph per title character whose lookup succeeds.
- It sizes the bitmap to the sum of the glyph slots. Each slot is
  `max(left + width, 5)`. The bitmap is as high as the rounded line height.
- It walks a caret along the glyphs. For each glyph it:
  - packs the glyph's 3- or 4-byte source pixels into 4-byte
    red, red, green, alpha pixels of the tinted colour;
  - adds the kerning with the previous glyph;
  - draws the glyph at `left + caret`, `height - top + descent`;
  - adds the glyph's advance.

The model has five modules:

- `Wrappers`: `Option`, `Result` and `Outcome`.
- `Backend`: the collaborators, seen only through what the renderer asks of
  them.
  - The font rasterizer is a datatype `Fonts`. It holds glyph lookup,
    metrics and kerning as functions of the device pixel ratio, plus whether
    the rasterizer and the font can be created.
  - The pixel library is a datatype `Skia`. It holds whether a bitmap of a
    size can be allocated, whether a byte buffer can be viewed as a glyph
    image, and the premultiply-and-convert step of a colour.
  - It also holds the byte and `u32` types and Rust's `i32 as u32` cast.
- `Layout`: the glyph collection, the width fold and the caret walk, as
  functions, with lemmas about them.
- `Packing`: pixel packing.
  - As a specification function (`Pack`, defined chunk by chunk).
  - As the per-pixel loop that the source runs (`PackGlyph`), proved equal
    to it.
- `Title`:
  - The render pass as a specification function `Render`, and the
    properties of what it draws.
  - The caret loop as the method `DrawGlyphs`, proved against `Render`.
  - The class `TitleText`. Its invariant `Valid()` says three things: the
    rasterizer's pixel ratio equals the scale, every glyph buffer splits into
    whole chunks, and the cached bitmap is `Render` of the current title,
    pixel ratio, metrics and colour.

A bitmap is modelled as its width and height plus the ordered list of glyph
views drawn onto it. Each view is a `Blit`: its position, its size and its
packed bytes. Blending and clipping are not modelled.

The scale is a HiDPI factor and is meant to be at least 1. `update_scale`
nevertheless accepts any `u32`, including 0, and so does the model.

## Model

| member | source | states |
|---|---|---|
| Backend.AsU32 | src/title.rs:141 | `as u32` on an i32 keeps values in range and adds 2^32 to negative ones |
| Layout.Accepted | src/title.rs:114-129 | at most one glyph per title character |
| Layout.AcceptedAppend | src/title.rs:114-129 | collecting glyphs distributes over concatenation, so title order is kept |
| Layout.AcceptedEmptyIff | src/title.rs:114-134 | no glyph is collected if and only if every character's lookup fails (an empty title included) |
| Layout.AcceptedSound | src/title.rs:117-128 | every collected glyph is the rasterizer's answer for a character of the title |
| Layout.AcceptedComplete | src/title.rs:117-128 | every character whose lookup succeeds is collected with its glyph |
| Layout.AcceptedAllFound | src/title.rs:114-129 | when every lookup succeeds, glyph i is the glyph of character i |
| Layout.Slot | src/title.rs:138 | a glyph's slot is `max(left + width, 5)`: at least 5, at least the right edge, and equal to one of them |
| Layout.WidthAppend | src/title.rs:136-138 | the width fold of a concatenation is the sum of the parts' widths |
| Layout.WidthLowerBound | src/title.rs:136-138 | the width is at least 5 times the number of glyphs |
| Layout.WidthOfNarrowGlyphs | src/title.rs:136-138 | when no glyph's right edge passes 5, the width is exactly 5 per glyph |
| Layout.CaretIsSum | src/title.rs:149-151 | caret i is the advances of glyphs 0..i-1 plus the kerning of pairs (0,1)..(i-1,i); the first glyph gets no kerning |
| Packing.Coverage | src/title.rs:161-168 | a chunk's coverage lies in [0, 1] |
| Packing.CoverageExtremes | src/title.rs:161-168 | coverage is 0 or 1 exactly when the alpha byte (or, without one, every colour byte) is 0 or 255 |
| Packing.Chunk | src/title.rs:155-158 | chunk k has between 1 and n bytes, and at least 3 when the buffer splits into whole chunks |
| Packing.PackChunks | src/title.rs:160-178 | k chunks produce exactly 4k bytes |
| Packing.PackChunksAt | src/title.rs:160-178 | bytes 4j..4j+3 of the output are the pixel of chunk j |
| Packing.PixelLayout | src/title.rs:170-177 | the output has 4 bytes per chunk; pixel k is red, red, green, alpha of the base colour with its alpha set to chunk k's coverage |
| Packing.PackGlyph | src/title.rs:153-178 | the per-pixel loop over 3-byte (RGB) or 4-byte (RGBA) chunks yields exactly the packed buffer |
| Title.RenderNone | src/title.rs:131-146 | no bitmap if and only if every lookup fails or the bitmap of the computed size cannot be allocated |
| Title.RenderDimensions | src/title.rs:136-146 | a bitmap's width is the cast width fold, at least 5 per glyph and exact within i32 range; its height is the cast rounded line height, whatever the title |
| Title.BlitPosition | src/title.rs:185-200 | glyph i lies at x = left + advances before it + kerning of the pairs up to it, and y = height - top + descent, and carries its packed bytes |
| Title.RenderDrawn | src/title.rs:185-196 | the views drawn are exactly those of the glyphs the pixel library accepts, each once, in glyph order; all are drawn when all are accepted |
| Title.DrawnViews | src/title.rs:185-196 | of any glyph sequence, the caret walk keeps exactly the drawable glyphs' views, each once, in glyph order, and all of them when all are drawable |
| Title.RenderColorIndependent | src/title.rs:136-196 | changing only the colour changes neither whether there is a bitmap, nor its size, nor any view's place, size or byte count |
| Title.DrawGlyphs | src/title.rs:149-201 | the caret loop draws exactly the accepted views of the glyphs, in order |
| Title.DrawGlyph | src/title.rs:153-196 | one glyph at the caret yields its view when the pixel library accepts it, and nothing otherwise |
| Title.TitleText.Init | src/title.rs:60-72 | a renderer with an empty title and scale 1 has the invariant and no bitmap |
| Title.TitleText.New | src/title.rs:32-75 | creation succeeds if and only if the rasterizer, the font, the reference glyph and the metrics all load, and otherwise fails with the first failing step. On success the result is a fresh renderer with an empty title, scale 1, the metrics read at ratio 1 and no bitmap |
| Title.TitleText.UpdateMetrics | src/title.rs:77-85 | succeeds if and only if the reference glyph and the metrics load; on success the metrics are the new ones, on failure they stay |
| Title.TitleText.UpdateScale | src/title.rs:87-96 | the same scale changes nothing; a new one is stored, followed by the rasterizer, refreshes the metrics (keeping the old ones on failure) and re-renders; the invariant holds |
| Title.TitleText.UpdateTitle | src/title.rs:98-104 | the same title changes nothing; a new one is stored and rendered with the invariant kept |
| Title.TitleText.UpdateColor | src/title.rs:106-111 | the same colour changes nothing; a new one is stored and rendered with the invariant kept |
| Title.TitleText.Rerender | src/title.rs:113-204 | the cached bitmap becomes the render of the current state |
| Title.TitleText.Pixmap | src/title.rs:206-208 | returns the cached bitmap, which under the invariant is the render of the current state, and changes nothing |

## Left out

- Font selection and loading are not modelled:
  - crossfont's internals (the `FontDesc`, the font key and the size);
  - `Rasterizer::new`, `load_font`, `get_glyph`, `metrics`, `kerning` and `update_dpr`.

  They are foreign calls. They are folded into the `Fonts` oracle, keyed by the device pixel ratio.
- `draw_pixmap` compositing is not modelled: blending, clipping, the paint and the transform. A draw is recorded as a `Blit`.
- `Pixmap::new` and `PixmapRef::from_bytes` are not modelled. They are predicates of the `Skia` oracle. The view predicate sees only the byte count and the size.
- Floating point is not modelled:
  - Coverage is computed in exact reals, not in f32.
  - `set_alpha`, `premultiply` and `to_color_u8` together are one oracle function.
  - `line_height.round()`, `descent.round()` and the kerning `as i32` are given as integers.
  - The rasterizer's `scale as f32` is the scale itself.
- Layout.WidthOf, Layout.Slot, Layout.Caret, Title.BlitAt: these i32 sums use unbounded integers. This covers the width fold and `left + width` (src/title.rs:136-138), the caret, and the placement sums `left + caret` and `height - top + descent` (src/title.rs:182, 189-190, 198). In the source, overflow past i32 panics in debug builds and wraps silently in release builds. The model follows neither.
- Packing.PackGlyph: a final chunk shorter than 3 bytes would make the source panic on `px[1]` or `px[2]`. The model requires every glyph buffer to split into whole chunks (`Fonts.Valid`) instead of modelling the panic.
- Title.DrawGlyph: the per-glyph `Vec::with_capacity(glyph.width as usize * 4)` panics on a negative glyph width, through a multiplication overflow in debug builds or a capacity overflow in release builds. The model requires non-negative widths (`Fonts.Valid`) instead of modelling the panic. For a non-negative width the capacity hint does not change what is drawn.
- Backend.Color: the channels are unconstrained reals, while tiny_skia keeps them in [0, 1].
- The `Debug` implementation is not modelled. It is formatting only.
