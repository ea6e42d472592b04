/**
 Text layout of `TextRenderer::render_text_ex` in
 2d-game/src/text_renderer/utf8.rs: one textured quad per character, placed
 from the glyph's bearing and size and the bearing of the reference glyph
 'H', with the pen moved right by the glyph's advance.

 The source computes in `f32`; here pen positions, scale and vertices are
 exact `real`s. The GL calls reduce to one `DrawCall` per glyph: the texture
 bound and the six vertices uploaded.
 */
module TextLayout {
  import opened RustInts
  import opened GlyphCache

  /** The glyph whose top bearing anchors every line vertically. */
  const REFERENCE_GLYPH: char := 'H'

  /** One vertex of the dynamic buffer: position, then texture coordinate. */
  datatype Vertex = Vertex(x: real, y: real, u: real, v: real)

  /** One `glDrawArrays` of a glyph quad, with the texture bound for it. */
  datatype DrawCall = DrawCall(texture: TextureHandle, vertices: seq<Vertex>)

  /**
   The vertex sits on a corner of the rectangle with top-left `(left, top)`
   and extent `(w, h)`, and its texture coordinate names that corner: u is
   0 on the left edge and 1 on the right, v is 0 on the top edge and 1 on
   the bottom.
   */
  predicate OnRectCorner(p: Vertex, left: real, top: real, w: real, h: real) {
    && ((p.u == 0.0 && p.x == left) || (p.u == 1.0 && p.x == left + w))
    && ((p.v == 0.0 && p.y == top) || (p.v == 1.0 && p.y == top + h))
  }

  /** Top offset of a glyph below the line top, in unscaled pixels. */
  function DropBelowReference(ch: Character, referenceTop: i32): i32 {
    WrappingSubI32(referenceTop, ch.bearing.y)
  }

  /**
   The six vertices uploaded for glyph `ch` with the pen at `(penX, y)`:
   two triangles over the glyph rectangle that share its bottom-left to
   top-right diagonal, each vertex carrying the texture corner it lies on.
   */
  function GlyphQuad(penX: real, y: real, scale: real, ch: Character, referenceTop: i32): (r: seq<Vertex>)
    ensures |r| == 6
    ensures forall i | 0 <= i < 6 ::
      OnRectCorner(r[i],
        penX + ch.bearing.x as real * scale,
        y + DropBelowReference(ch, referenceTop) as real * scale,
        ch.size.x as real * scale,
        ch.size.y as real * scale)
    ensures r[0] == r[3] && r[1] == r[5]
    ensures (r[0].u, r[0].v) == (0.0, 1.0) && (r[1].u, r[1].v) == (1.0, 0.0)
    ensures (r[2].u, r[2].v) == (0.0, 0.0) && (r[4].u, r[4].v) == (1.0, 1.0)
  {
    var xpos := penX + ch.bearing.x as real * scale;
    var ypos := y + DropBelowReference(ch, referenceTop) as real * scale;
    var w := ch.size.x as real * scale;
    var h := ch.size.y as real * scale;
    [ Vertex(xpos, ypos + h, 0.0, 1.0),
      Vertex(xpos + w, ypos, 1.0, 0.0),
      Vertex(xpos, ypos, 0.0, 0.0),

      Vertex(xpos, ypos + h, 0.0, 1.0),
      Vertex(xpos + w, ypos + h, 1.0, 1.0),
      Vertex(xpos + w, ypos, 1.0, 0.0) ]
  }

  /**
   The pen step after a glyph, in pixels: the advance is in 1/64 pixel, and
   shifting the unsigned value right by 6 drops the fraction, which is
   integer division by 64.
   */
  function AdvancePixels(ch: Character, scale: real): real {
    (ch.advance / 64) as real * scale
  }

  /** The sum of the advances of `text`, read from the cache `m`. */
  function TotalAdvance(m: map<char, Character>, text: string, scale: real): real
    requires forall i | 0 <= i < |text| :: text[i] in m
    decreases |text|
  {
    if text == [] then 0.0
    else TotalAdvance(m, text[..|text| - 1], scale) + AdvancePixels(m[text[|text| - 1]], scale)
  }

  /** The advances of `text` depend only on the cache entries of its characters. */
  lemma {:induction false} TotalAdvanceAgrees(m: map<char, Character>, m': map<char, Character>, text: string, scale: real)
    requires forall i | 0 <= i < |text| :: text[i] in m && text[i] in m' && m'[text[i]] == m[text[i]]
    ensures TotalAdvance(m', text, scale) == TotalAdvance(m, text, scale)
    decreases |text|
  {
    if text != [] {
      TotalAdvanceAgrees(m, m', text[..|text| - 1], scale);
    }
  }

  /**
   The draw call for glyph `i` of `text` once the cache `m` holds every
   glyph: the glyph's texture and its quad with the pen at `x` plus the
   advances of the glyphs before it.
   */
  function GlyphDraw(m: map<char, Character>, text: string, i: nat, x: real, y: real, scale: real): DrawCall
    requires i < |text|
    requires forall j | 0 <= j <= i :: text[j] in m
    requires REFERENCE_GLYPH in m
  {
    var ch := m[text[i]];
    DrawCall(ch.textureId,
             GlyphQuad(x + TotalAdvance(m, text[..i], scale), y, scale, ch, m[REFERENCE_GLYPH].bearing.y))
  }

  /** The outcome of one pass of the loop body: the glyph placed, or a panic. */
  datatype GlyphStep =
    | Placed(helper: FtHelper, ch: Character, draw: DrawCall)
    | GlyphPanicked

  /**
   One pass of the loop body for character `c` with the pen at `(x, y)`:
   fetch `c`, then fetch 'H' for the vertical anchor, then build the quad.
   */
  function PlaceGlyph(h: FtHelper, raster: Rasteriser, c: char, x: real, y: real, scale: real)
    : (r: GlyphStep)
    ensures r.Placed? <==> Available(h, raster, c) && Available(h, raster, REFERENCE_GLYPH)
    ensures r.Placed? ==>
      && Grows(h, r.helper, raster)
      && r.helper.characters.Keys == h.characters.Keys + {c, REFERENCE_GLYPH}
      && r.ch == r.helper.characters[c]
      && r.draw == DrawCall(r.ch.textureId,
                            GlyphQuad(x, y, scale, r.ch, r.helper.characters[REFERENCE_GLYPH].bearing.y))
      && (WellFormed(h) ==> WellFormed(r.helper))
  {
    match GetOrLoad(h, raster, c)
    case Panicked => GlyphPanicked
    case Fetched(h1, ch) =>
      GrowsKeepsAvailability(h, h1, raster, REFERENCE_GLYPH);
      match GetOrLoad(h1, raster, REFERENCE_GLYPH)
      case Panicked => GlyphPanicked
      case Fetched(h2, reference) =>
        GrowsTransitive(h, h1, h2, raster);
        GetOrLoadPreservesWellFormed(h, raster, c);
        GetOrLoadPreservesWellFormed(h1, raster, REFERENCE_GLYPH);
        Placed(h2, ch, DrawCall(ch.textureId, GlyphQuad(x, y, scale, ch, reference.bearing.y)))
  }

  /** The result of `render_text_ex`: glyphs drawn, or a panic after some were. */
  datatype Rendered =
    | Rendered(helper: FtHelper, draws: seq<DrawCall>, penX: real)
    | Aborted(drawn: seq<DrawCall>)

  /** Some character of `text`, or the reference glyph, can be neither found nor rendered. */
  predicate MissingGlyph(h: FtHelper, raster: Rasteriser, text: string) {
    text != [] &&
    (!Available(h, raster, REFERENCE_GLYPH) || exists i | 0 <= i < |text| :: !Available(h, raster, text[i]))
  }

  /** The distinct characters of a string. */
  function CharsOf(text: string): set<char> {
    set c | c in text
  }

  /** Loading more glyphs neither creates nor removes a missing one. */
  lemma GrowsKeepsAvailability(h: FtHelper, h': FtHelper, raster: Rasteriser, c: char)
    requires Grows(h, h', raster)
    ensures Available(h', raster, c) <==> Available(h, raster, c)
  {
  }

  /** The cache after the loop of `render_text_ex` has placed `text[..i]`. */
  ghost predicate CachedPrefix(h: FtHelper, raster: Rasteriser, text: string, i: nat, cur: FtHelper) {
    && i <= |text|
    && Grows(h, cur, raster)
    && (forall j | 0 <= j < i :: Available(h, raster, text[j]) && text[j] in cur.characters)
    && (i > 0 ==> REFERENCE_GLYPH in cur.characters)
    && cur.characters.Keys == h.characters.Keys + CharsOf(text[..i]) + (if i == 0 then {} else {REFERENCE_GLYPH})
    && (WellFormed(h) ==> WellFormed(cur))
  }

  /** The pen and the draw calls after the loop has placed `text[..i]` from the cache `m`. */
  ghost predicate LaidOutPrefix(m: map<char, Character>, text: string, x: real, y: real, scale: real,
                                i: nat, pen: real, draws: seq<DrawCall>)
    requires i <= |text|
    requires forall j | 0 <= j < i :: text[j] in m
    requires i > 0 ==> REFERENCE_GLYPH in m
  {
    && pen == x + TotalAdvance(m, text[..i], scale)
    && |draws| == i
    && (forall j | 0 <= j < i :: draws[j] == GlyphDraw(m, text, j, x, y, scale))
  }

  /** What holds after the loop of `render_text_ex` has placed `text[..i]`. */
  ghost predicate RenderedPrefix(h: FtHelper, raster: Rasteriser, text: string, x: real, y: real, scale: real,
                                 i: nat, cur: FtHelper, pen: real, draws: seq<DrawCall>)
  {
    CachedPrefix(h, raster, text, i, cur) && LaidOutPrefix(cur.characters, text, x, y, scale, i, pen, draws)
  }

  lemma RenderedPrefixStart(h: FtHelper, raster: Rasteriser, text: string, x: real, y: real, scale: real)
    ensures RenderedPrefix(h, raster, text, x, y, scale, 0, h, x, [])
  {
  }

  /** The facts `PlaceGlyph` establishes about a placed glyph, as `render_text_ex` uses them. */
  ghost predicate PlacedGlyph(cur: FtHelper, raster: Rasteriser, c: char, pen: real, y: real, scale: real,
                              next: FtHelper, ch: Character, draw: DrawCall)
  {
    && Available(cur, raster, c)
    && Grows(cur, next, raster)
    && next.characters.Keys == cur.characters.Keys + {c, REFERENCE_GLYPH}
    && ch == next.characters[c]
    && draw == DrawCall(ch.textureId, GlyphQuad(pen, y, scale, ch, next.characters[REFERENCE_GLYPH].bearing.y))
    && (WellFormed(cur) ==> WellFormed(next))
  }

  /** Placing glyph `i` extends the rendered prefix by one character. */
  lemma RenderedPrefixStep(h: FtHelper, raster: Rasteriser, text: string, x: real, y: real, scale: real,
                           i: nat, cur: FtHelper, pen: real, draws: seq<DrawCall>,
                           next: FtHelper, ch: Character, draw: DrawCall)
    requires RenderedPrefix(h, raster, text, x, y, scale, i, cur, pen, draws)
    requires i < |text|
    requires PlacedGlyph(cur, raster, text[i], pen, y, scale, next, ch, draw)
    ensures RenderedPrefix(h, raster, text, x, y, scale, i + 1, next, pen + AdvancePixels(ch, scale), draws + [draw])
  {
    CachedPrefixStep(h, raster, text, i, cur, next);
    RenderedPrefixPen(cur, next, text, i, scale, ch);
    RenderedPrefixDraws(text, x, y, scale, i, cur, pen, draws, next, ch, draw);
  }

  lemma CachedPrefixStep(h: FtHelper, raster: Rasteriser, text: string, i: nat, cur: FtHelper, next: FtHelper)
    requires CachedPrefix(h, raster, text, i, cur)
    requires i < |text|
    requires Available(cur, raster, text[i])
    requires Grows(cur, next, raster)
    requires next.characters.Keys == cur.characters.Keys + {text[i], REFERENCE_GLYPH}
    requires WellFormed(cur) ==> WellFormed(next)
    ensures CachedPrefix(h, raster, text, i + 1, next)
  {
    GrowsTransitive(h, cur, next, raster);
    CachedPrefixCovers(h, raster, text, i, cur, next);
    CachedPrefixKeys(h, text, i, cur, next);
  }

  lemma CachedPrefixCovers(h: FtHelper, raster: Rasteriser, text: string, i: nat, cur: FtHelper, next: FtHelper)
    requires i < |text|
    requires forall j | 0 <= j < i :: Available(h, raster, text[j]) && text[j] in cur.characters
    requires Available(cur, raster, text[i])
    requires Grows(h, cur, raster)
    requires next.characters.Keys == cur.characters.Keys + {text[i], REFERENCE_GLYPH}
    ensures forall j | 0 <= j < i + 1 :: Available(h, raster, text[j]) && text[j] in next.characters
  {
  }

  lemma CachedPrefixKeys(h: FtHelper, text: string, i: nat, cur: FtHelper, next: FtHelper)
    requires i < |text|
    requires cur.characters.Keys == h.characters.Keys + CharsOf(text[..i]) + (if i == 0 then {} else {REFERENCE_GLYPH})
    requires next.characters.Keys == cur.characters.Keys + {text[i], REFERENCE_GLYPH}
    ensures next.characters.Keys == h.characters.Keys + CharsOf(text[..i + 1]) + {REFERENCE_GLYPH}
  {
  }

  lemma RenderedPrefixPen(cur: FtHelper, next: FtHelper, text: string, i: nat, scale: real, ch: Character)
    requires i < |text|
    requires forall j | 0 <= j < i :: text[j] in cur.characters
    requires forall c | c in cur.characters :: c in next.characters && next.characters[c] == cur.characters[c]
    requires text[i] in next.characters && next.characters[text[i]] == ch
    ensures forall j | 0 <= j <= i :: text[j] in next.characters
    ensures TotalAdvance(next.characters, text[..i + 1], scale)
            == TotalAdvance(cur.characters, text[..i], scale) + AdvancePixels(ch, scale)
  {
    var t := text[..i + 1];
    assert t[..|t| - 1] == text[..i];
    TotalAdvanceAgrees(cur.characters, next.characters, text[..i], scale);
  }

  lemma RenderedPrefixDraws(text: string, x: real, y: real, scale: real,
                            i: nat, cur: FtHelper, pen: real, draws: seq<DrawCall>,
                            next: FtHelper, ch: Character, draw: DrawCall)
    requires i < |text| && |draws| == i
    requires forall j | 0 <= j < i :: text[j] in cur.characters
    requires i > 0 ==> REFERENCE_GLYPH in cur.characters
    requires forall j | 0 <= j < i :: draws[j] == GlyphDraw(cur.characters, text, j, x, y, scale)
    requires pen == x + TotalAdvance(cur.characters, text[..i], scale)
    requires forall c | c in cur.characters :: c in next.characters && next.characters[c] == cur.characters[c]
    requires text[i] in next.characters && REFERENCE_GLYPH in next.characters
    requires ch == next.characters[text[i]]
    requires draw == DrawCall(ch.textureId, GlyphQuad(pen, y, scale, ch, next.characters[REFERENCE_GLYPH].bearing.y))
    ensures forall j | 0 <= j < i + 1 :: (draws + [draw])[j] == GlyphDraw(next.characters, text, j, x, y, scale)
  {
    forall j | 0 <= j < i
      ensures GlyphDraw(next.characters, text, j, x, y, scale) == GlyphDraw(cur.characters, text, j, x, y, scale)
    {
      TotalAdvanceAgrees(cur.characters, next.characters, text[..j], scale);
    }
    TotalAdvanceAgrees(cur.characters, next.characters, text[..i], scale);
  }

  /** A fetch that panics means some needed glyph was missing from the start. */
  lemma RenderedPrefixPanic(h: FtHelper, raster: Rasteriser, text: string, x: real, y: real, scale: real,
                            i: nat, cur: FtHelper, pen: real, draws: seq<DrawCall>)
    requires RenderedPrefix(h, raster, text, x, y, scale, i, cur, pen, draws)
    requires i < |text|
    requires PlaceGlyph(cur, raster, text[i], pen, y, scale).GlyphPanicked?
    ensures MissingGlyph(h, raster, text)
    ensures !(CharsOf(text) <= h.characters.Keys && REFERENCE_GLYPH in h.characters)
  {
    if CharsOf(text) <= h.characters.Keys && REFERENCE_GLYPH in h.characters {
      RenderOfCachedTextLoadsNothing(h, raster, text, cur);
    }
  }

  /**
   Rendering a text whose glyphs, and 'H', are all cached cannot panic, and
   a completed render of it leaves the helper exactly as it was: no glyph
   is rasterised twice, so rendering the same text again loads nothing.
   */
  lemma RenderOfCachedTextLoadsNothing(h: FtHelper, raster: Rasteriser, text: string, cur: FtHelper)
    requires CharsOf(text) <= h.characters.Keys && REFERENCE_GLYPH in h.characters
    ensures !MissingGlyph(h, raster, text)
    ensures Grows(h, cur, raster) &&
            cur.characters.Keys == h.characters.Keys + CharsOf(text) + (if text == [] then {} else {REFERENCE_GLYPH})
            ==> cur == h
  {
    if Grows(h, cur, raster) &&
       cur.characters.Keys == h.characters.Keys + CharsOf(text) + (if text == [] then {} else {REFERENCE_GLYPH}) {
      GrowsWithoutNewKeysIsIdentity(h, cur, raster);
    }
  }

  /** When the loop has placed every character, the render is complete. */
  lemma RenderedPrefixComplete(h: FtHelper, raster: Rasteriser, text: string, x: real, y: real, scale: real,
                               cur: FtHelper, pen: real, draws: seq<DrawCall>)
    requires RenderedPrefix(h, raster, text, x, y, scale, |text|, cur, pen, draws)
    ensures !MissingGlyph(h, raster, text)
    ensures Grows(h, cur, raster)
    ensures cur.characters.Keys == h.characters.Keys + CharsOf(text) + (if text == [] then {} else {REFERENCE_GLYPH})
    ensures pen == x + TotalAdvance(cur.characters, text, scale)
    ensures |draws| == |text|
    ensures forall i | 0 <= i < |text| :: draws[i] == GlyphDraw(cur.characters, text, i, x, y, scale)
    ensures WellFormed(h) ==> WellFormed(cur)
    ensures CharsOf(text) <= h.characters.Keys && REFERENCE_GLYPH in h.characters ==> cur == h
  {
    assert text[..|text|] == text;
    if CharsOf(text) <= h.characters.Keys && REFERENCE_GLYPH in h.characters {
      RenderOfCachedTextLoadsNothing(h, raster, text, cur);
    }
  }

  /**
   `render_text_ex`: for each character in order, place its glyph and move
   the pen right by its advance. It panics exactly when a character of the
   text, or 'H', is neither cached nor renderable; otherwise the cache gains
   exactly those characters, the pen ends at `x` plus the sum of the
   advances, and glyph `i` is drawn at the pen position before it, on the
   same baseline `y`. A text already in the cache renders without loading.
   */
  method RenderTextEx(h: FtHelper, raster: Rasteriser, text: string, x: real, y: real, scale: real)
    returns (r: Rendered)
    ensures r.Aborted? <==> MissingGlyph(h, raster, text)
    ensures r.Aborted? ==> |r.drawn| < |text|
    ensures r.Rendered? ==>
      && Grows(h, r.helper, raster)
      && r.helper.characters.Keys ==
           h.characters.Keys + CharsOf(text) + (if text == [] then {} else {REFERENCE_GLYPH})
      && r.penX == x + TotalAdvance(r.helper.characters, text, scale)
      && |r.draws| == |text|
      && (forall i | 0 <= i < |text| :: r.draws[i] == GlyphDraw(r.helper.characters, text, i, x, y, scale))
      && (WellFormed(h) ==> WellFormed(r.helper))
    ensures CharsOf(text) <= h.characters.Keys && REFERENCE_GLYPH in h.characters ==>
      r.Rendered? && r.helper == h
  {
    var cur, pen, draws, i := h, x, [], 0;
    RenderedPrefixStart(h, raster, text, x, y, scale);
    while i < |text|
      invariant RenderedPrefix(h, raster, text, x, y, scale, i, cur, pen, draws)
    {
      var step := PlaceGlyph(cur, raster, text[i], pen, y, scale);
      if step.GlyphPanicked? {
        RenderedPrefixPanic(h, raster, text, x, y, scale, i, cur, pen, draws);
        return Aborted(draws);
      }
      RenderedPrefixStep(h, raster, text, x, y, scale, i, cur, pen, draws, step.helper, step.ch, step.draw);
      cur, pen, draws, i := step.helper, pen + AdvancePixels(step.ch, scale), draws + [step.draw], i + 1;
    }
    RenderedPrefixComplete(h, raster, text, x, y, scale, cur, pen, draws);
    r := Rendered(cur, draws, pen);
  }
}
