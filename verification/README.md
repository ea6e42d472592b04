# Glyph cache, text layout and key state of a Breakout clone, in Dafny

This project models two small parts of a Rust/OpenGL Breakout game and proves
what they promise.

- **The UTF-8 text renderer** (`2d-game/src/text_renderer/utf8.rs`). `FTHelper`
  holds a lazy glyph cache, a map from character to `Character`: texture, bitmap
  size, bearing and advance. `load` rasterises one character with FreeType and
  stores it. `get_or_load` loads only on a cache miss, then indexes the map, and
  that index panics if the load failed. `render_text_ex` walks the string. For
  each character it fetches the glyph and the reference glyph `'H'`, then
  uploads a six-vertex quad placed from bearing and size times `scale`. It then
  moves the pen right by `(advance >> 6) * scale`, because FreeType advances are
  in 1/64 pixel.
- **The key callback** (`key_callback` in `2d-game/src/main.rs`). It is a
  bounded state machine over two 1024-entry flag arrays, `keys` and
  `keys_processed`, plus the window's close request. The model also holds the
  filter in `gl_debug_output` that drops four driver message ids.

Files:

- `rust_ints.dfy` (module `RustInts`): the `u32`/`i32`/`i64` widths and the
  casts the source performs, written out as two's-complement arithmetic.
- `wrappers.dfy` (module `Wrappers`): `Option`, for FreeType's fallible glyph
  rendering, the panicking `init` and the last key transition.
- `glyph_cache.dfy` (module `GlyphCache`): `Character`, `FtHelper`, `Default`,
  `Init`, `Load`, `GetOrLoad` and `Drop`. It also defines the texture-ownership
  invariant `WellFormed` and the relation `Grows` ("some loads happened").
- `text_layout.dfy` (module `TextLayout`): `GlyphQuad`, the pen arithmetic, one
  pass of the render loop (`PlaceGlyph`) and `RenderTextEx`, plus its loop
  invariant and lemmas.
- `key_input.dfy` (module `KeyInput`): `KeyCallback`, event sequences and the
  debug-id filter.

Collaborators become parameters:

- FreeType is the parameter `raster: char -> Option<GlyphMetrics>`. It is the
  face and pixel size that the last `init` set up, and it either returns the
  metrics of the rendered glyph or fails. A helper that was never initialised
  has a null face (utf8.rs:153), on which `FT_Load_Char` fails, so the model
  ignores `raster` there: before `init`, every load fails whatever `raster`
  says (`GlyphCache.Renders`). `init` is the only place the face and size
  change. Callers pass the raster that matches the helper's last `init`.
- OpenGL texture names are opaque handles. They come from the counter
  `FtHelper.nextTexture`, which stands for `glGenTextures` handing out a fresh
  name.
- The GL draw calls become a `DrawCall` value: the texture bound and the six
  vertices uploaded.
- `f32` arithmetic is exact `real` arithmetic.

Two behaviours of the code are easy to miss:

- `FTHelper::init` (utf8.rs:69-85) does not clear the glyph cache, so glyphs
  rasterised at an earlier size stay cached. `GlyphCache.Init` keeps the cache.
- A glyph that fails to rasterise is not skipped. `get_or_load`
  (utf8.rs:139-144) indexes the map after the failed load, and that panics.
  `GlyphCache.GetOrLoad` returns `Panicked`, and `RenderTextEx` returns
  `Aborted` exactly when some needed glyph is neither cached nor renderable.

## Model

| member | source | states |
|---|---|---|
| RustInts.U32AsI32 | 2d-game/src/text_renderer/utf8.rs:127 | `bitmap.width as i32` keeps the value modulo 2^32; it is unchanged below 2^31 and negative exactly from 2^31 up |
| RustInts.I64AsU32 | 2d-game/src/text_renderer/utf8.rs:129 | `advance.x as u32` is congruent to the FreeType advance modulo 2^32, and equals it when it fits |
| RustInts.WrappingSubI32 | 2d-game/src/text_renderer/utf8.rs:250 | the i32 difference of the reference bearing and the glyph bearing is congruent to the true difference, and equals it exactly when that fits in i32 |
| GlyphCache.Default | 2d-game/src/text_renderer/utf8.rs:147-157 | a fresh helper is not initialised, has font size 0 and an empty cache, and satisfies texture ownership |
| GlyphCache.Init | 2d-game/src/text_renderer/utf8.rs:69-85 | `init` panics exactly when the font path contains a NUL byte (the `CString::new(..).unwrap()`). Otherwise it marks the helper initialised and records the font size whatever FreeType reported. It counts one more `init` call that reached FreeType; that call's library/face pair replaces the stored one. It does not clear the glyph cache |
| GlyphCache.Load | 2d-game/src/text_renderer/utf8.rs:87-137 | `load(c)` returns true iff `c` was not cached and the helper's face renders it, which needs an initialised helper; when it returns false nothing changes; when true it adds exactly key `c` with the glyph's size, bearing and advance and a new texture, and every other entry is kept |
| GlyphCache.LoadPreservesWellFormed | 2d-game/src/text_renderer/utf8.rs:104-131 | a loaded glyph's texture belongs to no other cached glyph, so every glyph keeps a texture of its own |
| GlyphCache.LoadTwiceIsNoOp | 2d-game/src/text_renderer/utf8.rs:88-91 | a second `load` of the same character returns false and leaves the helper unchanged |
| GlyphCache.NothingLoadsBeforeInit | 2d-game/src/text_renderer/utf8.rs:147-157 | on a default helper, with its null face, no `load` succeeds and every `get_or_load` panics |
| GlyphCache.GetOrLoad | 2d-game/src/text_renderer/utf8.rs:139-144 | `get_or_load(c)` does not panic iff `c` is cached or the face renders it; on a hit it returns the stored glyph and changes nothing; otherwise it adds only `c` and returns the glyph now stored for `c` |
| GlyphCache.GetOrLoadRasterisesOnce | 2d-game/src/text_renderer/utf8.rs:139-144 | after one successful `get_or_load(c)`, a second one returns the same glyph and state, so a character is rasterised at most once |
| GlyphCache.GetOrLoadPreservesWellFormed | 2d-game/src/text_renderer/utf8.rs:139-144 | `get_or_load` keeps every cached glyph's texture distinct and handed out |
| GlyphCache.Drop | 2d-game/src/text_renderer/utf8.rs:159-169 | the destructor releases FreeType only if `initialized`, and then it frees the face before the library, both of the pair the last `init` stored |
| GlyphCache.DropAfterLifecycle | 2d-game/src/text_renderer/utf8.rs:160-167 | a default helper releases nothing; after one `init` that does not panic (utf8.rs:83-84 set `initialized`), it releases face and library of pair 1 once each, whatever glyphs were loaded in between |
| GlyphCache.SecondInitLeaksFirstPair | 2d-game/src/text_renderer/utf8.rs:69-85 | a second `init` overwrites `ft` and `face` with pair 2, so the destructor frees the face and library of pair 2 and never those of pair 1, which leak |
| GlyphCache.LoadAllKeepsInitState | 2d-game/src/text_renderer/utf8.rs:87-137 | any sequence of loads keeps the init flag and font size, and never removes or alters an entry; every new entry is a rasterised glyph, with one texture per new entry |
| TextLayout.GlyphQuad | 2d-game/src/text_renderer/utf8.rs:249-263 | the six vertices are two triangles sharing the bottom-left/top-right diagonal; each lies on the corner of the rectangle at `x + bearing.x*scale`, `y + (H.bearing.y - bearing.y)*scale`, size `size*scale`, and its texture coordinate names that corner |
| TextLayout.PlaceGlyph | 2d-game/src/text_renderer/utf8.rs:247-271 | one loop pass succeeds iff the character and `'H'` are cached or rasterise; it caches exactly those two, and draws the glyph's texture on the quad anchored to the stored `'H'` |
| TextLayout.RenderedPrefixPen | 2d-game/src/text_renderer/utf8.rs:273 | after each glyph the pen has moved by exactly `(advance / 64) * scale` more, and earlier advances are unaffected by the glyphs loaded since |
| TextLayout.RenderTextEx | 2d-game/src/text_renderer/utf8.rs:230-278 | the render panics iff the text is non-empty and a character or `'H'` is neither cached nor renderable; otherwise the cache gains exactly the text's characters plus `'H'`, old entries kept. The pen ends at `x` plus the sum of the per-glyph advances. Glyph `i` is drawn with its own texture at `x` plus the advances of the glyphs before it, all on baseline `y`. Texture ownership holds. A text whose characters and `'H'` are already cached renders and leaves the helper unchanged |
| TextLayout.RenderOfCachedTextLoadsNothing | 2d-game/src/text_renderer/utf8.rs:246-250 | a text whose characters and `'H'` are all cached cannot panic, and rendering it leaves the helper unchanged, so rendering a string a second time loads nothing; `RenderTextEx` also states this directly |
| KeyInput.KeyCallback | 2d-game/src/main.rs:202-221 | Escape+Press requests close and nothing withdraws it; an in-range Press sets `keys[k]` and keeps `keys_processed[k]`; an in-range Release clears both; Repeat and out-of-range codes change neither array; no index other than `k` changes |
| KeyInput.KeyCallbackIdempotent | 2d-game/src/main.rs:213-220 | delivering the same event twice gives the same state as delivering it once |
| KeyInput.CloseRequestLatches | 2d-game/src/main.rs:209-212 | after any event sequence, the close request is set iff it was set before or some event was Escape+Press |
| KeyInput.KeyDownIffLastPressed | 2d-game/src/main.rs:213-219 | after any event sequence, `keys[k]` is true iff the last Press/Release of `k` was a Press; it keeps its initial value when there was none |
| KeyInput.ProcessedClearedByRelease | 2d-game/src/main.rs:216-218 | after any event sequence, `keys_processed[k]` is still set iff it was set before and no Release of `k` arrived |
| KeyInput.OutOfRangeEventsKeepFlags | 2d-game/src/main.rs:213 | events whose key codes lie outside `0..1024` leave both arrays unchanged |
| KeyInput.PassesDebugFilter | 2d-game/src/main.rs:53-55 | a debug message passes the id filter of `gl_debug_output` iff its id is not one of 131169, 131185, 131218, 131204 |

## Left out

- All OpenGL calls are left out because they are GPU side effects: pixel-store
  setup, texture creation and parameters, VAO/VBO setup, buffer upload, binding
  and draw calls. Texture names are opaque handles, and a draw is its texture
  plus its six vertices.
- The FreeType FFI is abstracted. `FT_Load_Char` on the face that
  `FT_Set_Pixel_Sizes` configured is the `raster` parameter. A failed init leaves a
  null face, on which every load fails; that case is one choice of `raster`.
  `FT_Init_FreeType`/`FT_New_Face` are counted by `freeTypeInits`, and
  `FT_Done_*` are the releases `Drop` returns.
- GlyphCache.Init: on a font path with a NUL byte, the model records only the
  panic. It does not record that `FT_Init_FreeType` already ran and replaced
  `ft`: the model's history of the helper ends at the panic.
- `TextRenderer::new` is not modelled. It loads a shader through the resource
  manager, sets the orthographic projection, and builds the vertex buffer; that
  code is not part of this model.
- `render_text` is not modelled. It only forwards to `render_text_ex` with a
  white colour, and the text colour uniform has no geometric effect.
- `f32` rounding is not modelled: positions, `scale` and vertices are exact
  `real`s.
- RustInts.WrappingSubI32 follows a release build, where `i32` subtraction
  wraps. A debug build would panic instead on `H.bearing.y - bearing.y`
  overflow. FreeType bearings are far too small for either to happen.
- TextLayout.RenderTextEx: when the render panics, it states only that fewer
  draws than characters were issued. It does not state their positions.
- `characters.iter().any(|it| c == *it.0)` is a linear search for the key. It is
  modelled as map membership, which gives the same answer.
- `main` is not modelled: the GLFW window and context setup, the frame loop,
  and the `f32` delta time are windowing I/O and float timing.
- The `GAME_OBJ_PTR` leak and unleak helpers are not modelled. They are unsafe
  pointer lifetime management.
- `framebuffer_size_callback` is not modelled; it only sets the GL viewport.
- KeyInput.PassesDebugFilter models only the id filter. What `gl_debug_output`
  does with a message that passes it is not modelled. That includes the panic
  of `message_c_str.to_str().unwrap()` (main.rs:61) on a message that is not
  valid UTF-8, inside an `extern "system"` callback, before anything is logged.
- Setting `keys_processed[k]` to true happens in `Game::process_input`. That
  file is not part of this model. Here the flag is only ever cleared, by
  Release.
- `shared/src/filesystem.rs` is not modelled: it joins a path onto the working
  directory.
- `text_renderer/mod.rs` is not modelled: it only declares the renderer trait.
