/**
 The lazy glyph cache of the UTF-8 text renderer (`FTHelper` in
 2d-game/src/text_renderer/utf8.rs).

 Glyph rendering, `FT_Load_Char` on the face that `FT_Set_Pixel_Sizes`
 configured, is the parameter `raster`: a partial function from a character
 to the metrics of its rendered glyph, `None` when `FT_Load_Char` reports an
 error. It stands for the face and pixel size the last `init` set up; before
 any `init` the face is null and every load fails, whatever `raster` says.
 The `FT_Init_FreeType`/`FT_New_Face` pairs `init` creates are counted by
 `freeTypeInits`, and the `FT_Done_*` calls are the releases `Drop` returns.
 OpenGL texture names are opaque handles
 drawn from the counter `nextTexture`, standing for `glGenTextures`, which
 hands out a name not in use.
 */
module GlyphCache {
  import opened RustInts
  import opened Wrappers

  /** What FreeType leaves in the glyph slot after rendering one character. */
  datatype GlyphMetrics = GlyphMetrics(
    bitmapWidth: u32,   // bitmap.width
    bitmapRows: u32,    // bitmap.rows
    bitmapLeft: i32,    // bitmap_left
    bitmapTop: i32,     // bitmap_top
    advanceX: i64       // advance.x, in 1/64 pixel
  )

  /** The font face at its current pixel size: rasterises one character, or fails. */
  type Rasteriser = char -> Option<GlyphMetrics>

  type TextureHandle = nat

  datatype IVec2 = IVec2(x: i32, y: i32)

  /** A cached glyph: its texture, bitmap size, bearing and advance. */
  datatype Character = Character(
    textureId: TextureHandle,
    size: IVec2,
    bearing: IVec2,
    advance: u32
  )

  /**
   The FreeType helper: init state, pixel size and the glyph cache.
   `freeTypeInits` counts the `init` calls that reached FreeType; call `n`
   stores library/face pair `n`, replacing the earlier one.
   */
  datatype FtHelper = FtHelper(
    initialized: bool,
    fontSize: u32,
    characters: map<char, Character>,
    nextTexture: TextureHandle,
    freeTypeInits: nat
  )

  /** The FreeType calls the helper's destructor issues, each naming the pair it frees. */
  datatype FtRelease = DoneFace(pair: nat) | DoneFreeType(pair: nat)

  /** The `Character` stored for freshly rendered metrics, casts as in the source. */
  function CharacterOf(m: GlyphMetrics, texture: TextureHandle): Character {
    Character(
      texture,
      IVec2(U32AsI32(m.bitmapWidth), U32AsI32(m.bitmapRows)),
      IVec2(m.bitmapLeft, m.bitmapTop),
      I64AsU32(m.advanceX))
  }

  /** Every cached glyph owns its own texture, and every texture was handed out. */
  ghost predicate WellFormed(h: FtHelper) {
    && (forall c | c in h.characters :: h.characters[c].textureId < h.nextTexture)
    && (forall c, d | c in h.characters && d in h.characters && c != d ::
          h.characters[c].textureId != h.characters[d].textureId)
  }

  /**
   FreeType renders `c`: the helper has a face (it was initialised) and
   `FT_Load_Char` succeeds on it.
   */
  predicate Renders(h: FtHelper, raster: Rasteriser, c: char) {
    h.initialized && raster(c).Some?
  }

  /**
   `h'` is `h` after some loads through `raster`: no entry was removed or
   changed, every new entry is what the helper's face rendered for its key, and
   exactly one texture name was generated per new entry.
   */
  ghost predicate Grows(h: FtHelper, h': FtHelper, raster: Rasteriser) {
    && h'.initialized == h.initialized
    && h'.fontSize == h.fontSize
    && h'.freeTypeInits == h.freeTypeInits
    && h.characters.Keys <= h'.characters.Keys
    && h'.nextTexture - h.nextTexture == |h'.characters| - |h.characters|
    && (forall c | c in h.characters :: h'.characters[c] == h.characters[c])
    && (forall c | c in h'.characters && c !in h.characters ::
          Renders(h, raster, c) && h'.characters[c] == CharacterOf(raster(c).value, h'.characters[c].textureId))
  }

  lemma GrowsReflexive(h: FtHelper, raster: Rasteriser)
    ensures Grows(h, h, raster)
  {
  }

  lemma GrowsTransitive(h1: FtHelper, h2: FtHelper, h3: FtHelper, raster: Rasteriser)
    requires Grows(h1, h2, raster) && Grows(h2, h3, raster)
    ensures Grows(h1, h3, raster)
  {
  }

  /** Loads that add no key change nothing at all. */
  lemma GrowsWithoutNewKeysIsIdentity(h: FtHelper, h': FtHelper, raster: Rasteriser)
    requires Grows(h, h', raster)
    requires h'.characters.Keys <= h.characters.Keys
    ensures h' == h
  {
    assert h'.characters == h.characters;
  }

  /** A helper as `Default::default` builds it: not initialised, nothing cached. */
  function Default(): (h: FtHelper)
    ensures !h.initialized && h.fontSize == 0
    ensures h.characters == map[]
    ensures h.freeTypeInits == 0
    ensures WellFormed(h)
  {
    FtHelper(false, 0, map[], 0, 0)
  }

  /** The NUL character, which `CString::new` refuses inside a string. */
  const NUL: char := '\0'

  /**
   `init(font, fontSize)`: turning the font path into a C string panics
   (`None`) when it contains a NUL. Otherwise FreeType start-up and face
   errors are only logged, so the helper is marked initialised and records
   the pixel size whatever FreeType answered. A new library and face replace
   the old ones, which are not released. The glyph cache is kept as it was.
   */
  function Init(h: FtHelper, font: string, fontSize: u32): (r: Option<FtHelper>)
    ensures r.None? <==> NUL in font
    ensures r.Some? ==>
      && r.value.initialized && r.value.fontSize == fontSize
      && r.value.freeTypeInits == h.freeTypeInits + 1
      && r.value.characters == h.characters && r.value.nextTexture == h.nextTexture
      && (WellFormed(h) ==> WellFormed(r.value))
  {
    if NUL in font then None
    else Some(h.(initialized := true, fontSize := fontSize, freeTypeInits := h.freeTypeInits + 1))
  }

  /** The outcome of `load`: the helper afterwards and the returned flag. */
  datatype LoadResult = LoadResult(helper: FtHelper, loaded: bool)

  /**
   `load(c)`: nothing happens for a cached character or one FreeType cannot
   render; otherwise exactly one entry, for `c`, is added, with a fresh
   texture and the rendered metrics.
   */
  function Load(h: FtHelper, raster: Rasteriser, c: char): (r: LoadResult)
    ensures r.loaded <==> c !in h.characters && Renders(h, raster, c)
    ensures !r.loaded ==> r.helper == h
    ensures r.loaded ==>
      && r.helper.characters.Keys == h.characters.Keys + {c}
      && r.helper.characters[c] == CharacterOf(raster(c).value, h.nextTexture)
      && r.helper.nextTexture == h.nextTexture + 1
    ensures Grows(h, r.helper, raster)
  {
    if c in h.characters || !h.initialized then
      LoadResult(h, false)
    else
      match raster(c)
      case None => LoadResult(h, false)
      case Some(m) =>
        var character := CharacterOf(m, h.nextTexture);
        LoadResult(h.(characters := h.characters[c := character],
                      nextTexture := h.nextTexture + 1), true)
  }

  /** A load never breaks texture ownership: the new glyph's texture is unused. */
  lemma LoadPreservesWellFormed(h: FtHelper, raster: Rasteriser, c: char)
    requires WellFormed(h)
    ensures WellFormed(Load(h, raster, c).helper)
    ensures Load(h, raster, c).loaded ==>
      forall d | d in h.characters ::
        h.characters[d].textureId != Load(h, raster, c).helper.characters[c].textureId
  {
  }

  /** A second `load` of the same character is a no-op that returns false. */
  lemma LoadTwiceIsNoOp(h: FtHelper, raster: Rasteriser, c: char)
    ensures var once := Load(h, raster, c).helper;
            Load(once, raster, c) == LoadResult(once, false)
  {
  }

  /** The outcome of `get_or_load`: the glyph, or the panic of `characters[&c]`. */
  datatype Fetch = Fetched(helper: FtHelper, ch: Character) | Panicked

  /** The character is cached, or FreeType can render it. */
  predicate Available(h: FtHelper, raster: Rasteriser, c: char) {
    c in h.characters || Renders(h, raster, c)
  }

  /**
   `get_or_load(c)`: `load` runs only on a miss; the index that follows
   panics exactly when that load failed.
   */
  function GetOrLoad(h: FtHelper, raster: Rasteriser, c: char): (r: Fetch)
    ensures r.Fetched? <==> Available(h, raster, c)
    ensures c in h.characters ==> r == Fetched(h, h.characters[c])
    ensures r.Fetched? ==>
      && c in r.helper.characters
      && r.ch == r.helper.characters[c]
      && Grows(h, r.helper, raster)
      && r.helper.characters.Keys == h.characters.Keys + {c}
  {
    var h' := if c !in h.characters then Load(h, raster, c).helper else h;
    if c in h'.characters then Fetched(h', h'.characters[c]) else Panicked
  }

  /** Before `init` the face is null: no load succeeds and every fetch panics. */
  lemma NothingLoadsBeforeInit(raster: Rasteriser, c: char)
    ensures !Load(Default(), raster, c).loaded
    ensures GetOrLoad(Default(), raster, c) == Panicked
  {
  }

  /** Once a character has been fetched, fetching it again changes nothing. */
  lemma GetOrLoadRasterisesOnce(h: FtHelper, raster: Rasteriser, c: char)
    requires GetOrLoad(h, raster, c).Fetched?
    ensures var first := GetOrLoad(h, raster, c);
            GetOrLoad(first.helper, raster, c) == first
  {
  }

  /** `get_or_load` keeps texture ownership intact. */
  lemma GetOrLoadPreservesWellFormed(h: FtHelper, raster: Rasteriser, c: char)
    ensures WellFormed(h) && GetOrLoad(h, raster, c).Fetched? ==> WellFormed(GetOrLoad(h, raster, c).helper)
  {
  }

  /**
   The destructor releases the face and then the library, and only after
   `init`; it releases only the pair the last `init` stored.
   */
  function Drop(h: FtHelper): (released: seq<FtRelease>)
    ensures h.initialized <==> |released| > 0
    ensures h.initialized ==> released == [DoneFace(h.freeTypeInits), DoneFreeType(h.freeTypeInits)]
    ensures forall i | 0 <= i < |released| :: released[i].pair == h.freeTypeInits
  {
    if h.initialized then [DoneFace(h.freeTypeInits), DoneFreeType(h.freeTypeInits)] else []
  }

  /**
   Lifecycle: a default helper releases nothing; after `init`, however many
   glyphs were loaded in between, it releases each FreeType object once.
   */
  lemma DropAfterLifecycle(raster: Rasteriser, font: string, fontSize: u32, cs: seq<char>)
    ensures Drop(Default()) == []
    ensures Init(Default(), font, fontSize).Some? ==>
      Drop(LoadAll(Init(Default(), font, fontSize).value, raster, cs)) == [DoneFace(1), DoneFreeType(1)]
  {
    if NUL !in font {
      LoadAllKeepsInitState(Init(Default(), font, fontSize).value, raster, cs);
    }
  }

  /**
   A second `init` leaks the first library and face: two pairs were created,
   and the destructor releases one.
   */
  lemma SecondInitLeaksFirstPair(font1: string, size1: u32, font2: string, size2: u32)
    requires NUL !in font1 && NUL !in font2
    ensures var h1 := Init(Default(), font1, size1).value;
            var h2 := Init(h1, font2, size2).value;
            && Drop(h1) == [DoneFace(1), DoneFreeType(1)]
            && Drop(h2) == [DoneFace(2), DoneFreeType(2)]
            && DoneFace(1) !in Drop(h2) && DoneFreeType(1) !in Drop(h2)
  {
  }

  /** Loads `cs` in order, ignoring each result. */
  function LoadAll(h: FtHelper, raster: Rasteriser, cs: seq<char>): FtHelper
    decreases |cs|
  {
    if cs == [] then h else LoadAll(Load(h, raster, cs[0]).helper, raster, cs[1..])
  }

  lemma {:induction false} LoadAllKeepsInitState(h: FtHelper, raster: Rasteriser, cs: seq<char>)
    ensures Grows(h, LoadAll(h, raster, cs), raster)
    decreases |cs|
  {
    if cs == [] {
      GrowsReflexive(h, raster);
    } else {
      var h1 := Load(h, raster, cs[0]).helper;
      LoadAllKeepsInitState(h1, raster, cs[1..]);
      GrowsTransitive(h, h1, LoadAll(h1, raster, cs[1..]), raster);
    }
  }
}
