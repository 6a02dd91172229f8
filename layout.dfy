/**
 * Horizontal layout of a title: which characters become glyphs, how wide
 * the bitmap is, and where the caret stands for each glyph.
 */
module Layout {
  import opened Wrappers
  import opened Backend

  /** A glyph together with the character (the glyph key) it was rasterized for. */
  datatype Shaped = Shaped(key: char, glyph: Glyph)

  /** One step of the glyph collection: the character's glyph, or nothing if the lookup fails. */
  function Lookup(f: Fonts, d: u32, c: char): (gs: seq<Shaped>)
    ensures |gs| <= 1
  {
    match f.glyph(d, c)
    case Some(g) => [Shaped(c, g)]
    case None => []
  }

  /** The glyphs of a title, in title order, skipping characters whose lookup fails. */
  function Accepted(f: Fonts, d: u32, title: string): (gs: seq<Shaped>)
    ensures |gs| <= |title|
  {
    if title == [] then [] else Lookup(f, d, title[0]) + Accepted(f, d, title[1..])
  }

  /** Collecting the glyphs of a concatenation collects each part in turn. */
  lemma {:induction false} AcceptedAppend(f: Fonts, d: u32, a: string, b: string)
    ensures Accepted(f, d, a + b) == Accepted(f, d, a) + Accepted(f, d, b)
  {
    if a == [] {
      assert a + b == b;
    } else {
      assert (a + b)[0] == a[0];
      assert (a + b)[1..] == a[1..] + b;
      AcceptedAppend(f, d, a[1..], b);
    }
  }

  /** No glyph is collected exactly when every character's lookup fails. */
  lemma {:induction false} AcceptedEmptyIff(f: Fonts, d: u32, title: string)
    ensures Accepted(f, d, title) == [] <==> forall i :: 0 <= i < |title| ==> f.glyph(d, title[i]).None?
  {
    if title != [] {
      AcceptedEmptyIff(f, d, title[1..]);
      assert forall i :: 1 <= i < |title| ==> title[i] == title[1..][i - 1];
    }
  }

  /** Every collected glyph is the rasterizer's answer for a character of the title. */
  lemma {:induction false} AcceptedSound(f: Fonts, d: u32, title: string)
    ensures forall j :: 0 <= j < |Accepted(f, d, title)| ==>
      Accepted(f, d, title)[j].key in title &&
      f.glyph(d, Accepted(f, d, title)[j].key) == Some(Accepted(f, d, title)[j].glyph)
  {
    if title != [] {
      AcceptedSound(f, d, title[1..]);
      var head: seq<Shaped>, tail: seq<Shaped> := Lookup(f, d, title[0]), Accepted(f, d, title[1..]);
      assert Accepted(f, d, title) == head + tail;
      forall j | 0 <= j < |head + tail|
        ensures (head + tail)[j].key in title
        ensures f.glyph(d, (head + tail)[j].key) == Some((head + tail)[j].glyph)
      {
        if j >= |head| {
          assert (head + tail)[j] == tail[j - |head|];
          assert tail[j - |head|].key in title[1..];
        }
      }
    }
  }

  /** Every character whose lookup succeeds is collected, with the glyph the rasterizer gave it. */
  lemma {:induction false} AcceptedComplete(f: Fonts, d: u32, title: string, i: nat)
    requires i < |title| && f.glyph(d, title[i]).Some?
    ensures Shaped(title[i], f.glyph(d, title[i]).value) in Accepted(f, d, title)
  {
    if i > 0 {
      assert title[i] == title[1..][i - 1];
      AcceptedComplete(f, d, title[1..], i - 1);
    }
  }

  /** When every lookup succeeds, glyph i is exactly the glyph of character i. */
  lemma {:induction false} AcceptedAllFound(f: Fonts, d: u32, title: string)
    requires forall i :: 0 <= i < |title| ==> f.glyph(d, title[i]).Some?
    ensures |Accepted(f, d, title)| == |title|
    ensures forall i :: 0 <= i < |title| ==>
      Accepted(f, d, title)[i] == Shaped(title[i], f.glyph(d, title[i]).value)
  {
    if title != [] {
      assert forall i :: 1 <= i < |title| ==> title[i] == title[1..][i - 1];
      AcceptedAllFound(f, d, title[1..]);
    }
  }

  /** The room one glyph reserves: its right edge, but never less than 5 pixels. */
  function Slot(g: Glyph): (w: int)
    ensures w >= 5 && w >= g.left + g.width
    ensures w == 5 || w == g.left + g.width
  {
    if g.left + g.width > 5 then g.left + g.width else 5
  }

  /** The bitmap width: a left fold of the glyphs' slots, starting from 0. */
  function WidthOf(gs: seq<Shaped>): int
  {
    if gs == [] then 0 else WidthOf(gs[..|gs| - 1]) + Slot(gs[|gs| - 1].glyph)
  }

  /** The width of a concatenation is the sum of the widths. */
  lemma {:induction false} WidthAppend(a: seq<Shaped>, b: seq<Shaped>)
    ensures WidthOf(a + b) == WidthOf(a) + WidthOf(b)
  {
    if b == [] {
      assert a + b == a;
    } else {
      assert (a + b)[..|a + b| - 1] == a + b[..|b| - 1];
      assert (a + b)[|a + b| - 1] == b[|b| - 1];
      WidthAppend(a, b[..|b| - 1]);
    }
  }

  /** Every glyph reserves at least 5 pixels. */
  lemma {:induction false} WidthLowerBound(gs: seq<Shaped>)
    ensures WidthOf(gs) >= 5 * |gs|
  {
    if gs != [] {
      WidthLowerBound(gs[..|gs| - 1]);
    }
  }

  /** When no glyph reaches past 5 pixels, the bitmap is exactly 5 pixels per glyph. */
  lemma {:induction false} WidthOfNarrowGlyphs(gs: seq<Shaped>)
    requires forall j :: 0 <= j < |gs| ==> gs[j].glyph.left + gs[j].glyph.width <= 5
    ensures WidthOf(gs) == 5 * |gs|
  {
    if gs != [] {
      WidthOfNarrowGlyphs(gs[..|gs| - 1]);
    }
  }

  /** The sum of the advances of a glyph sequence. */
  function Advances(gs: seq<Shaped>): int
  {
    if gs == [] then 0 else gs[0].glyph.advance + Advances(gs[1..])
  }

  /** The sum of the kerning of every adjacent pair of a glyph sequence. */
  function Kernings(f: Fonts, d: u32, gs: seq<Shaped>): int
  {
    if |gs| < 2 then 0 else f.kerning(d, gs[0].key, gs[1].key) + Kernings(f, d, gs[1..])
  }

  lemma {:induction false} AdvancesSnoc(gs: seq<Shaped>, s: Shaped)
    ensures Advances(gs + [s]) == Advances(gs) + s.glyph.advance
  {
    if gs == [] {
      assert [] + [s] == [s];
    } else {
      assert (gs + [s])[1..] == gs[1..] + [s];
      AdvancesSnoc(gs[1..], s);
    }
  }

  lemma {:induction false} KerningsSnoc(f: Fonts, d: u32, gs: seq<Shaped>, s: Shaped)
    requires gs != []
    ensures Kernings(f, d, gs + [s]) == Kernings(f, d, gs) + f.kerning(d, gs[|gs| - 1].key, s.key)
  {
    if |gs| == 1 {
      assert (gs + [s])[1..] == [s];
    } else {
      assert (gs + [s])[1..] == gs[1..] + [s];
      KerningsSnoc(f, d, gs[1..], s);
    }
  }

  /**
   * The caret when glyph i is placed, as the walk computes it: before each
   * glyph after the first, add the kerning of the previous and the current
   * key; after placing a glyph, add its advance.
   */
  function Caret(f: Fonts, d: u32, gs: seq<Shaped>, i: nat): int
    requires i < |gs|
  {
    if i == 0 then 0
    else Caret(f, d, gs, i - 1) + gs[i - 1].glyph.advance + f.kerning(d, gs[i - 1].key, gs[i].key)
  }

  /** The caret once the first k glyphs are placed: the caret of the last of them plus its advance. */
  function CaretAfter(f: Fonts, d: u32, gs: seq<Shaped>, k: nat): int
    requires k <= |gs|
  {
    if k == 0 then 0 else Caret(f, d, gs, k - 1) + gs[k - 1].glyph.advance
  }

  /** Placing glyph i: its caret is the caret so far, plus the kerning with the previous glyph if there is one. */
  lemma CaretBeforeGlyph(f: Fonts, d: u32, gs: seq<Shaped>, i: nat)
    requires i < |gs|
    ensures Caret(f, d, gs, i) ==
      CaretAfter(f, d, gs, i) + if i == 0 then 0 else f.kerning(d, gs[i - 1].key, gs[i].key)
  {
  }

  /** After glyph i: the caret moves on by its advance. */
  lemma CaretAfterGlyph(f: Fonts, d: u32, gs: seq<Shaped>, i: nat)
    requires i < |gs|
    ensures CaretAfter(f, d, gs, i + 1) == Caret(f, d, gs, i) + gs[i].glyph.advance
  {
  }

  /**
   * The caret of glyph i is the sum of the advances of glyphs 0 .. i-1 and
   * the kerning of the pairs (0, 1) .. (i-1, i); the first glyph gets none.
   */
  lemma {:induction false} CaretIsSum(f: Fonts, d: u32, gs: seq<Shaped>, i: nat)
    requires i < |gs|
    ensures Caret(f, d, gs, i) == Advances(gs[..i]) + Kernings(f, d, gs[..i + 1])
  {
    if i > 0 {
      CaretIsSum(f, d, gs, i - 1);
      assert gs[..i] == gs[..i - 1] + [gs[i - 1]];
      assert gs[..i + 1] == gs[..i] + [gs[i]];
      AdvancesSnoc(gs[..i - 1], gs[i - 1]);
      KerningsSnoc(f, d, gs[..i], gs[i]);
    }
  }
}
