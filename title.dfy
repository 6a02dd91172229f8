/**
 * The title renderer: the render pass as a specification function, the
 * properties of what it draws, and the `TitleText` object whose setters
 * re-render only on a real change.
 */
module Title {
  import opened Wrappers
  import opened Backend
  import opened Layout
  import opened Packing

  /** What a render pass reads: the title, the rasterizer's pixel ratio, the metrics and the colour. */
  datatype Input = Input(title: string, dpr: u32, metrics: Metrics, color: Color)

  /** One `draw_pixmap` call: a glyph view of width × height, with its bytes, placed at (x, y). */
  datatype Blit = Blit(x: int, y: int, width: u32, height: u32, pixels: seq<u8>)

  /** A rendered bitmap: its dimensions and the glyph views drawn onto it, in drawing order. */
  datatype Bitmap = Bitmap(width: u32, height: u32, blits: seq<Blit>)

  /** Every glyph buffer of gs splits into whole chunks. */
  predicate Packable(gs: seq<Shaped>) {
    forall j :: 0 <= j < |gs| ==> WholeChunks(|gs[j].glyph.buffer.bytes|, gs[j].glyph.buffer.Stride())
  }

  lemma AcceptedPackable(f: Fonts, d: u32, title: string)
    requires f.Valid()
    ensures Packable(Accepted(f, d, title))
  {
    AcceptedSound(f, d, title);
  }

  /** The packed bytes of one glyph. */
  function Packed(sk: Skia, color: Color, s: Shaped): seq<u8>
    requires WholeChunks(|s.glyph.buffer.bytes|, s.glyph.buffer.Stride())
  {
    Pack(sk, color, s.glyph.buffer.bytes, s.glyph.buffer.Stride())
  }

  /** Whether the pixel library accepts glyph i's packed bytes as a width × height view. */
  predicate Drawable(sk: Skia, input: Input, gs: seq<Shaped>, i: nat)
    requires Packable(gs) && i < |gs|
  {
    sk.canView(|Packed(sk, input.color, gs[i])|, AsU32(gs[i].glyph.width), AsU32(gs[i].glyph.height))
  }

  /** The view of glyph i: at its left bearing plus its caret, and at line height minus its top plus the descent. */
  function BlitAt(f: Fonts, sk: Skia, input: Input, gs: seq<Shaped>, i: nat): Blit
    requires Packable(gs) && i < |gs|
  {
    var g := gs[i].glyph;
    Blit(g.left + Caret(f, input.dpr, gs, i),
         input.metrics.lineHeight - g.top + input.metrics.descent,
         AsU32(g.width), AsU32(g.height), Packed(sk, input.color, gs[i]))
  }

  /** The view every glyph would get, in glyph order. */
  function Views(f: Fonts, sk: Skia, input: Input, gs: seq<Shaped>): (vs: seq<Blit>)
    requires Packable(gs)
  {
    seq(|gs|, i requires 0 <= i < |gs| => BlitAt(f, sk, input, gs, i))
  }

  /** Which glyphs the pixel library accepts, in glyph order. */
  function DrawMask(sk: Skia, input: Input, gs: seq<Shaped>): (m: seq<bool>)
    requires Packable(gs)
  {
    seq(|gs|, i requires 0 <= i < |gs| => Drawable(sk, input, gs, i))
  }

  /** The positions j < k whose flag is set, in increasing order. */
  function Marked(m: seq<bool>, k: nat): seq<nat>
    requires k <= |m|
  {
    if k == 0 then [] else Marked(m, k - 1) + (if m[k - 1] then [k - 1] else [])
  }

  /** The elements among the first k whose flag is set, in order. */
  function Keep<T>(xs: seq<T>, m: seq<bool>, k: nat): seq<T>
    requires |xs| == |m| && k <= |m|
  {
    if k == 0 then [] else Keep(xs, m, k - 1) + (if m[k - 1] then [xs[k - 1]] else [])
  }

  /** Marked lists exactly the flagged positions below k, each once, in increasing order. */
  lemma {:induction false} MarkedExact(m: seq<bool>, k: nat)
    requires k <= |m|
    ensures forall j :: 0 <= j < |Marked(m, k)| ==> Marked(m, k)[j] < k && m[Marked(m, k)[j]]
    ensures forall a, b :: 0 <= a < b < |Marked(m, k)| ==> Marked(m, k)[a] < Marked(m, k)[b]
    ensures forall j :: 0 <= j < k && m[j] ==> j in Marked(m, k)
  {
    if k > 0 {
      MarkedExact(m, k - 1);
      var prefix := Marked(m, k - 1);
      var last := if m[k - 1] then [k - 1] else [];
      assert Marked(m, k) == prefix + last;
      assert forall j :: 0 <= j < |prefix| ==> (prefix + last)[j] == prefix[j];
      assert m[k - 1] ==> (prefix + last)[|prefix|] == k - 1;
    }
  }

  /** When every flag is set, Marked is 0, 1, .., k-1. */
  lemma {:induction false} MarkedAll(m: seq<bool>, k: nat)
    requires k <= |m| && forall j :: 0 <= j < k ==> m[j]
    ensures |Marked(m, k)| == k && forall j :: 0 <= j < k ==> Marked(m, k)[j] == j
  {
    if k > 0 {
      MarkedAll(m, k - 1);
    }
  }

  /** Keep picks the elements at the marked positions. */
  lemma {:induction false} KeepPicksMarked<T>(xs: seq<T>, m: seq<bool>, k: nat)
    requires |xs| == |m| && k <= |m|
    ensures |Keep(xs, m, k)| == |Marked(m, k)|
    ensures forall j :: 0 <= j < |Marked(m, k)| ==> Marked(m, k)[j] < k && Keep(xs, m, k)[j] == xs[Marked(m, k)[j]]
  {
    if k > 0 {
      KeepPicksMarked(xs, m, k - 1);
      MarkedExact(m, k - 1);
      var kept, marked := Keep(xs, m, k - 1), Marked(m, k - 1);
      if m[k - 1] {
        assert Keep(xs, m, k) == kept + [xs[k - 1]];
        assert Marked(m, k) == marked + [k - 1];
      }
    }
  }

  /**
   * The render pass: no bitmap when no glyph is found or the bitmap cannot
   * be allocated; otherwise a bitmap as wide as the glyphs' slots and as
   * high as the rounded line height, with every drawable glyph drawn.
   */
  function Render(f: Fonts, sk: Skia, input: Input): Option<Bitmap>
    requires f.Valid()
  {
    var gs := Accepted(f, input.dpr, input.title);
    AcceptedPackable(f, input.dpr, input.title);
    if gs == [] then None
    else
      var width := WidthOf(gs);
      var height := input.metrics.lineHeight;
      if !sk.canAllocate(AsU32(width), AsU32(height)) then None
      else Some(Bitmap(AsU32(width), AsU32(height), Keep(Views(f, sk, input, gs), DrawMask(sk, input, gs), |gs|)))
  }

  /**
   * There is no bitmap exactly when every character of the title fails its
   * glyph lookup (the empty title included) or the bitmap cannot be allocated.
   */
  lemma RenderNone(f: Fonts, sk: Skia, input: Input)
    requires f.Valid()
    ensures Render(f, sk, input).None? <==>
      (forall i :: 0 <= i < |input.title| ==> f.glyph(input.dpr, input.title[i]).None?) ||
      !sk.canAllocate(AsU32(WidthOf(Accepted(f, input.dpr, input.title))), AsU32(input.metrics.lineHeight))
  {
    AcceptedEmptyIff(f, input.dpr, input.title);
  }

  /**
   * A rendered bitmap is as wide as the sum of the accepted glyphs' slots,
   * at least 5 pixels per glyph, and as high as the rounded line height
   * whatever the title holds.
   */
  lemma RenderDimensions(f: Fonts, sk: Skia, input: Input)
    requires f.Valid() && Render(f, sk, input).Some?
    ensures var gs := Accepted(f, input.dpr, input.title);
      var b := Render(f, sk, input).value;
      gs != [] && WidthOf(gs) >= 5 * |gs| &&
      b.width == AsU32(WidthOf(gs)) && (WidthOf(gs) <= I32Max ==> b.width as int == WidthOf(gs)) &&
      b.height == AsU32(input.metrics.lineHeight) &&
      (0 <= input.metrics.lineHeight <= I32Max ==> b.height as int == input.metrics.lineHeight)
  {
    WidthLowerBound(Accepted(f, input.dpr, input.title));
  }

  /** Glyph i's view stands at its left bearing plus the advances and kernings before it. */
  lemma BlitPosition(f: Fonts, sk: Skia, input: Input, gs: seq<Shaped>, i: nat)
    requires Packable(gs) && i < |gs|
    ensures BlitAt(f, sk, input, gs, i).x ==
      gs[i].glyph.left + Advances(gs[..i]) + Kernings(f, input.dpr, gs[..i + 1])
    ensures BlitAt(f, sk, input, gs, i).y == input.metrics.lineHeight - gs[i].glyph.top + input.metrics.descent
    ensures BlitAt(f, sk, input, gs, i).pixels == Packed(sk, input.color, gs[i])
  {
    CaretIsSum(f, input.dpr, gs, i);
  }

  /** Two views with the same place, size and byte count. */
  predicate SamePlace(a: Blit, b: Blit) {
    a.x == b.x && a.y == b.y && a.width == b.width && a.height == b.height && |a.pixels| == |b.pixels|
  }

  /**
   * The views drawn onto a rendered bitmap are exactly the views of the
   * glyphs the pixel library accepts, in glyph order; when it accepts every
   * glyph, view i is the view of glyph i.
   */
  lemma RenderDrawn(f: Fonts, sk: Skia, input: Input)
    requires f.Valid() && Render(f, sk, input).Some?
    ensures Packable(Accepted(f, input.dpr, input.title))
    ensures var gs := Accepted(f, input.dpr, input.title);
      var blits := Render(f, sk, input).value.blits;
      var drawn := Marked(DrawMask(sk, input, gs), |gs|);
      |blits| == |drawn| &&
      (forall j :: 0 <= j < |drawn| ==>
         (drawn[j] < |gs| && Drawable(sk, input, gs, drawn[j]) && blits[j] == BlitAt(f, sk, input, gs, drawn[j]))) &&
      (forall a, b :: 0 <= a < b < |drawn| ==> drawn[a] < drawn[b]) &&
      (forall i :: 0 <= i < |gs| && Drawable(sk, input, gs, i) ==> i in drawn) &&
      ((forall i :: 0 <= i < |gs| ==> Drawable(sk, input, gs, i)) ==>
         (|blits| == |gs| && forall i :: 0 <= i < |gs| ==> blits[i] == BlitAt(f, sk, input, gs, i)))
  {
    AcceptedPackable(f, input.dpr, input.title);
    DrawnViews(f, sk, input, Accepted(f, input.dpr, input.title));
  }

  /** What the caret walk keeps of a glyph sequence: the drawable glyphs' views, each once, in order. */
  lemma DrawnViews(f: Fonts, sk: Skia, input: Input, gs: seq<Shaped>)
    requires Packable(gs)
    ensures var blits := Keep(Views(f, sk, input, gs), DrawMask(sk, input, gs), |gs|);
      var drawn := Marked(DrawMask(sk, input, gs), |gs|);
      |blits| == |drawn| &&
      (forall j :: 0 <= j < |drawn| ==>
         (drawn[j] < |gs| && Drawable(sk, input, gs, drawn[j]) && blits[j] == BlitAt(f, sk, input, gs, drawn[j]))) &&
      (forall a, b :: 0 <= a < b < |drawn| ==> drawn[a] < drawn[b]) &&
      (forall i :: 0 <= i < |gs| && Drawable(sk, input, gs, i) ==> i in drawn) &&
      ((forall i :: 0 <= i < |gs| ==> Drawable(sk, input, gs, i)) ==>
         (|blits| == |gs| && forall i :: 0 <= i < |gs| ==> blits[i] == BlitAt(f, sk, input, gs, i)))
  {
    var m := DrawMask(sk, input, gs);
    KeepPicksMarked(Views(f, sk, input, gs), m, |gs|);
    MarkedExact(m, |gs|);
    if forall i :: 0 <= i < |gs| ==> Drawable(sk, input, gs, i) {
      MarkedAll(m, |gs|);
    }
  }

  /**
   * Changing only the colour changes neither whether there is a bitmap, nor
   * its dimensions, nor where each glyph goes and how many bytes it has.
   */
  lemma RenderColorIndependent(f: Fonts, sk: Skia, input: Input, color: Color)
    requires f.Valid()
    ensures var a, b := Render(f, sk, input), Render(f, sk, input.(color := color));
      a.Some? == b.Some? &&
      (a.Some? ==> a.value.width == b.value.width && a.value.height == b.value.height &&
                   |a.value.blits| == |b.value.blits| &&
                   forall j :: 0 <= j < |a.value.blits| ==> SamePlace(a.value.blits[j], b.value.blits[j]))
  {
    var other := input.(color := color);
    var gs := Accepted(f, input.dpr, input.title);
    AcceptedPackable(f, input.dpr, input.title);
    var m, m' := DrawMask(sk, input, gs), DrawMask(sk, other, gs);
    forall i | 0 <= i < |gs|
      ensures m[i] == m'[i] && SamePlace(BlitAt(f, sk, input, gs, i), BlitAt(f, sk, other, gs, i))
    {
      var g := gs[i].glyph;
      PackLength(sk, input.color, g.buffer.bytes, g.buffer.Stride());
      PackLength(sk, color, g.buffer.bytes, g.buffer.Stride());
    }
    assert m == m';
    KeepPicksMarked(Views(f, sk, input, gs), m, |gs|);
    KeepPicksMarked(Views(f, sk, other, gs), m, |gs|);
  }

  /**
   * The caret walk of the render pass: for each glyph, pack its pixels, add
   * the kerning with the previous glyph, draw it if the pixel library
   * accepts its view, then add its advance.
   */
  method DrawGlyphs(f: Fonts, sk: Skia, input: Input, glyphs: seq<Shaped>, width: u32, height: u32,
                    ghost views: seq<Blit>, ghost mask: seq<bool>)
    returns (canvas: Bitmap)
    requires Packable(glyphs) && |views| == |mask| == |glyphs|
    requires forall j :: 0 <= j < |glyphs| ==> Depicts(f, sk, input, glyphs, views, mask, j)
    ensures canvas == Bitmap(width, height, Keep(views, mask, |glyphs|))
  {
    canvas := Bitmap(width, height, []);
    var caret := 0;
    var last: Option<char> := None;
    for i := 0 to |glyphs|
      invariant canvas == Bitmap(width, height, Keep(views, mask, i))
      invariant last == if i == 0 then None else Some(glyphs[i - 1].key)
      invariant caret == CaretAfter(f, input.dpr, glyphs, i)
    {
      var key := glyphs[i].key;
      CaretBeforeGlyph(f, input.dpr, glyphs, i);
      if last.Some? {
        caret := caret + f.kerning(input.dpr, last.value, key);
      }
      var view := DrawGlyph(f, sk, input, glyphs, i, caret, views, mask);
      if view.Some? {
        canvas := canvas.(blits := canvas.blits + [view.value]);
      }
      CaretAfterGlyph(f, input.dpr, glyphs, i);
      caret := caret + glyphs[i].glyph.advance;
      last := Some(key);
    }
  }

  /** View j and flag j are glyph j's view and whether it is drawable. */
  ghost predicate Depicts(f: Fonts, sk: Skia, input: Input, gs: seq<Shaped>, views: seq<Blit>, mask: seq<bool>, j: nat)
    requires Packable(gs) && |views| == |mask| == |gs| && j < |gs|
  {
    views[j] == BlitAt(f, sk, input, gs, j) && mask[j] == Drawable(sk, input, gs, j)
  }

  /** Views and DrawMask depict every glyph. */
  lemma ViewsDepict(f: Fonts, sk: Skia, input: Input, gs: seq<Shaped>)
    requires Packable(gs)
    ensures |Views(f, sk, input, gs)| == |DrawMask(sk, input, gs)| == |gs|
    ensures forall j :: 0 <= j < |gs| ==> Depicts(f, sk, input, gs, Views(f, sk, input, gs), DrawMask(sk, input, gs), j)
  {
  }

  /** Packs glyph i and returns its view at the caret, or nothing when the pixel library refuses the view. */
  method DrawGlyph(f: Fonts, sk: Skia, input: Input, glyphs: seq<Shaped>, i: nat, caret: int,
                   ghost views: seq<Blit>, ghost mask: seq<bool>)
    returns (view: Option<Blit>)
    requires Packable(glyphs) && |views| == |mask| == |glyphs| && i < |glyphs|
    requires forall j :: 0 <= j < |glyphs| ==> Depicts(f, sk, input, glyphs, views, mask, j)
    requires caret == Caret(f, input.dpr, glyphs, i)
    ensures view == if mask[i] then Some(views[i]) else None
  {
    assert Depicts(f, sk, input, glyphs, views, mask, i);
    var glyph := glyphs[i].glyph;
    var buffer := PackGlyph(sk, input.color, glyph.buffer);
    if sk.canView(|buffer|, AsU32(glyph.width), AsU32(glyph.height)) {
      view := Some(Blit(glyph.left + caret, input.metrics.lineHeight - glyph.top + input.metrics.descent,
                        AsU32(glyph.width), AsU32(glyph.height), buffer));
    } else {
      view := None;
    }
  }

  /** The metrics after a refresh: new ones when the reference glyph and the metrics load, else the old ones. */
  function RefreshedMetrics(f: Fonts, d: u32, m: Metrics): Metrics
  {
    if f.glyph(d, ReferenceChar).Some? && f.lineMetrics(d).Some? then f.lineMetrics(d).value else m
  }

  /**
   * A rendered window title.  The rasterizer and the pixel library are fixed
   * at construction; the title, scale and colour change through the setters,
   * and `pixmap` always holds the render of the current state.
   */
  class TitleText {
    const fonts: Fonts
    const skia: Skia
    var title: string
    var scale: u32
    var dpr: u32          // the device pixel ratio the rasterizer holds
    var metrics: Metrics
    var color: Color
    var pixmap: Option<Bitmap>

    /** What the next render pass reads. */
    function Current(): Input
      reads this
    {
      Input(title, dpr, metrics, color)
    }

    /** The rasterizer follows the scale, and the cached bitmap is the render of the current state. */
    ghost predicate Valid()
      reads this
    {
      fonts.Valid() && dpr == scale && pixmap == Render(fonts, skia, Current())
    }

    constructor Init(fonts: Fonts, skia: Skia, color: Color, metrics: Metrics)
      requires fonts.Valid()
      ensures Valid() && this.fonts == fonts && this.skia == skia
      ensures title == [] && scale == 1 && this.metrics == metrics && this.color == color
      ensures pixmap == None
    {
      this.fonts := fonts;
      this.skia := skia;
      title := [];
      scale := 1;
      dpr := 1;
      this.metrics := metrics;
      this.color := color;
      pixmap := None;
      new;
      Rerender();
    }

    /**
     * Builds a renderer at scale 1 with an empty title, so without a bitmap.
     * Fails, with the first failing step, when the rasterizer cannot be
     * created, the font cannot be loaded, the reference glyph cannot be
     * loaded or the metrics cannot be read.
     */
    static method New(fonts: Fonts, skia: Skia, color: Color) returns (r: Result<TitleText, FontError>)
      requires fonts.Valid()
      ensures r.Success? <==>
        fonts.rasterizerOk && fonts.fontOk && fonts.glyph(1, ReferenceChar).Some? && fonts.lineMetrics(1).Some?
      ensures !fonts.rasterizerOk ==> r == Failure(RasterizerUnavailable)
      ensures fonts.rasterizerOk && !fonts.fontOk ==> r == Failure(FontUnavailable)
      ensures fonts.rasterizerOk && fonts.fontOk && fonts.glyph(1, ReferenceChar).None? ==>
        r == Failure(GlyphUnavailable)
      ensures fonts.rasterizerOk && fonts.fontOk && fonts.glyph(1, ReferenceChar).Some? && fonts.lineMetrics(1).None? ==>
        r == Failure(MetricsUnavailable)
      ensures r.Success? ==>
        fresh(r.value) && r.value.Valid() && r.value.fonts == fonts && r.value.skia == skia &&
        r.value.title == [] && r.value.scale == 1 && r.value.color == color &&
        fonts.lineMetrics(1).Some? && r.value.metrics == fonts.lineMetrics(1).value &&
        r.value.pixmap == None
    {
      if !fonts.rasterizerOk {
        return Failure(RasterizerUnavailable);
      }
      if !fonts.fontOk {
        return Failure(FontUnavailable);
      }
      if fonts.glyph(1, ReferenceChar).None? {
        return Failure(GlyphUnavailable);
      }
      var metrics := fonts.lineMetrics(1);
      if metrics.None? {
        return Failure(MetricsUnavailable);
      }
      var this' := new TitleText.Init(fonts, skia, color, metrics.value);
      r := Success(this');
    }

    /** Reloads the reference glyph and reads the metrics again; on failure the old metrics stay. */
    method UpdateMetrics() returns (outcome: Outcome<FontError>)
      modifies this`metrics
      ensures fonts.glyph(dpr, ReferenceChar).None? ==> outcome == Fail(GlyphUnavailable)
      ensures fonts.glyph(dpr, ReferenceChar).Some? && fonts.lineMetrics(dpr).None? ==> outcome == Fail(MetricsUnavailable)
      ensures outcome.Pass? <==> fonts.glyph(dpr, ReferenceChar).Some? && fonts.lineMetrics(dpr).Some?
      ensures metrics == RefreshedMetrics(fonts, dpr, old(metrics))
      ensures outcome.Fail? ==> metrics == old(metrics)
    {
      if fonts.glyph(dpr, ReferenceChar).None? {
        return Fail(GlyphUnavailable);
      }
      var m := fonts.lineMetrics(dpr);
      if m.None? {
        return Fail(MetricsUnavailable);
      }
      metrics := m.value;
      outcome := Pass;
    }

    /**
     * A new scale reconfigures the rasterizer, refreshes the metrics (keeping
     * the old ones if that fails) and re-renders; the current scale changes nothing.
     */
    method UpdateScale(s: u32)
      requires Valid()
      modifies this`scale, this`dpr, this`metrics, this`pixmap
      ensures Valid()
      ensures s == old(scale) ==> unchanged(this)
      ensures s != old(scale) ==> scale == s && dpr == s && metrics == RefreshedMetrics(fonts, s, old(metrics))
      ensures title == old(title) && color == old(color)
    {
      if scale != s {
        dpr := s;
        scale := s;
        var _ := UpdateMetrics();
        Rerender();
      }
    }

    /** A different title is stored and rendered; the current title changes nothing. */
    method UpdateTitle(t: string)
      requires Valid()
      modifies this`title, this`pixmap
      ensures Valid()
      ensures t == old(title) ==> unchanged(this)
      ensures title == t && scale == old(scale) && metrics == old(metrics) && color == old(color)
    {
      if title != t {
        title := t;
        Rerender();
      }
    }

    /** A different colour is stored and rendered; the current colour changes nothing. */
    method UpdateColor(c: Color)
      requires Valid()
      modifies this`color, this`pixmap
      ensures Valid()
      ensures c == old(color) ==> unchanged(this)
      ensures color == c && title == old(title) && scale == old(scale) && metrics == old(metrics)
    {
      if color != c {
        color := c;
        Rerender();
      }
    }

    /** The render pass: collect the glyphs, size the bitmap, then walk the glyphs with a caret. */
    method Rerender()
      requires fonts.Valid()
      modifies this`pixmap
      ensures pixmap == Render(fonts, skia, Current())
    {
      var input := Current();
      var glyphs := Accepted(fonts, dpr, title);
      AcceptedPackable(fonts, dpr, title);
      if glyphs == [] {
        pixmap := None;
        return;
      }
      var width := WidthOf(glyphs);
      var height := metrics.lineHeight;
      if !skia.canAllocate(AsU32(width), AsU32(height)) {
        pixmap := None;
        return;
      }
      ViewsDepict(fonts, skia, input, glyphs);
      var canvas := DrawGlyphs(fonts, skia, input, glyphs, AsU32(width), AsU32(height),
                               Views(fonts, skia, input, glyphs), DrawMask(skia, input, glyphs));
      pixmap := Some(canvas);
    }

    /** The cached bitmap; reading it renders nothing and changes nothing. */
    method Pixmap() returns (p: Option<Bitmap>)
      ensures p == pixmap
      ensures Valid() ==> p == Render(fonts, skia, Current())
    {
      p := pixmap;
    }
  }
}
