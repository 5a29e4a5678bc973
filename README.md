# Glyph atlas packing and vertex layout of a scripting game engine

This project models two small native pieces of a game engine's scripting layer.

- **TextureFont**. It renders each character of a string with FreeType and packs the bitmaps into a 1024×1024 single-channel texture with a greedy shelf packer:
  - glyphs go left to right with a one-pixel gutter;
  - a glyph that would cross the right edge starts a new row, moved down by the running maximum glyph height;
  - a glyph that would cross the bottom edge aborts the whole setup.

  The font keeps a table from character to glyph record (bearing offset, atlas rectangle, whole-pixel advance). It measures a string as the sum of the horizontal advances.
- **VertexDeclaration**. It holds an ordered list of vertex attributes. It binds them to a shader program with one stride (the sum of the element widths, which the source keeps in a field named `offset`) and with per-element byte offsets (the prefix sums of those widths). Setup fails on the first attribute name the program does not know.

The rasteriser becomes a function `FontFace` from character to metrics, with `None` for a load failure. The texture upload becomes the list `uploads` of rectangles written. The shader program's attribute lookup becomes a function `AttribLookup` from name to location, with −1 for "not found". The `glEnableVertexAttribArray`/`glVertexAttribPointer` calls become the returned list of `AttribPointer` records. The source's exceptions become `Result`/`Option` values.

Modules, one per concern:
- `Wrappers`: Option and Result.
- `Glyphs`: the glyph record and `LoadGlyph`.
- `AtlasPacking`: the packer as functions and the proofs about them.
- `TextMeasure`: string width.
- `TextureFonts`: the `TextureFont` class, whose methods mutate its state and are proved against `AtlasPacking.Pack` and `TextMeasure.Measure`.
- `VertexDeclarations`: the `VertexDeclaration` class and its prefix-sum specification.

Assumption: `maxGlyphHeight_` starts at 0. Its initialiser sits in `texture-font.h`, and `texture-font.h` is not part of this model. The constructor `TextureFonts.TextureFont.constructor` sets it to 0.

Three facts about the code that the model keeps:
- **Edge cases of the layout.** Take three 4×4 glyphs. In an 8×8 atlas, the second glyph is offered at x = 5 and would end at 9 > 8, so it wraps to (0,4). The third then wraps to y = 8 and does not fit (`AtlasPacking.ThreeSquaresTooNarrow`). In an 8×4 atlas the second glyph already does not fit (`AtlasPacking.ThreeSquaresTooShort`). In a 9-wide atlas the second glyph ends exactly at the right edge and stays on the row, so the glyphs land at (0,0), (5,0) and (0,4) (`AtlasPacking.ThreeSquaresFit`).
- **Rounding of advances.** `>> 6` is floor division by 64 for every sign (`Glyphs.ShiftRight6`).
- **Measuring.** `MeasureString` indexes the glyph table directly. The model requires every character of the text to be in the table; "## Left out" says why.

## Model

| member | source | states |
|---|---|---|
| `Glyphs.ShiftRight6` | src/graphics/texture-font.cpp:91-92 | the 26.6 advance becomes the unique r with 64·r ≤ raw < 64·r + 64 (floor of raw/64), non-negative for non-negative input |
| `Glyphs.LoadGlyph` | src/graphics/texture-font.cpp:77-94 | fails with the load error exactly when the face cannot render the character; otherwise the glyph's offset is the bitmap's bearing, its size the bitmap's width and rows, and each advance component is floor(raw/64) |
| `AtlasPacking.Pack` | src/graphics/texture-font.cpp:115-122 | a successful setup uploads exactly one rectangle per input character, duplicates included, keeps every earlier upload, and its table's keys are exactly the start table's keys plus the input characters |
| `AtlasPacking.StepPacked` | src/graphics/texture-font.cpp:131-145 | one placement keeps the packing invariant: cursor right after the last upload, rectangles inside the atlas, pairwise disjoint, above or left of the cursor, rows non-decreasing, consecutive glyphs related by the gutter/wrap rule |
| `AtlasPacking.PackPacked` | src/graphics/texture-font.cpp:115-122 | the whole setup, started with cursor (0,0) and running maximum 0, ends in a state satisfying the packing invariant |
| `AtlasPacking.PackInBounds` | src/graphics/texture-font.cpp:140-145 | every uploaded rectangle has x ≥ 0, y ≥ 0, y + h ≤ atlas height, and x + w ≤ atlas width unless it alone is wider than the atlas and sits at x = 0 |
| `AtlasPacking.PackWithinWidth` | src/graphics/texture-font.cpp:135-139 | when no rendered glyph is wider than the atlas, every uploaded rectangle satisfies 0 ≤ x and x + w ≤ atlas width |
| `AtlasPacking.PackUploadSizes` | src/graphics/texture-font.cpp:85-86 | the i-th upload has the width and rows of the i-th character's bitmap, and that character rendered |
| `AtlasPacking.PackNoOverlap` | src/graphics/texture-font.cpp:115-145 | any two distinct uploaded rectangles share no pixel |
| `AtlasPacking.PackRows` | src/graphics/texture-font.cpp:118-120 | the first glyph is at x = 0 (and y = 0 if it fits the width); glyph i+1 is at (xᵢ + wᵢ + 1, yᵢ) exactly when xᵢ + wᵢ + 1 + wᵢ₊₁ ≤ width (strict wrap test), and otherwise at x = 0 on a row at least yᵢ + hᵢ down; y never decreases |
| `AtlasPacking.PackCursor` | src/graphics/texture-font.cpp:132-139 | after the loop the cursor is one gutter pixel right of the last upload on its row, and the running maximum is the height of the tallest glyph on the last row: it bounds every glyph there and one of them reaches it |
| `AtlasPacking.PackRowMaximum` | src/graphics/texture-font.cpp:132-138 | once something is uploaded, some upload on the cursor's row is exactly as tall as the running maximum |
| `AtlasPacking.PackTable` | src/graphics/texture-font.cpp:121 | each character maps to its rendered glyph placed at the rectangle of its last occurrence in the input |
| `AtlasPacking.TableStep` | src/graphics/texture-font.cpp:121 | writing the newly placed glyph into the table keeps every character mapped to its last occurrence's rectangle |
| `AtlasPacking.PackGlyphMetrics` | src/graphics/texture-font.cpp:82-92 | every table entry has the offset, size and advance the face gives its character |
| `AtlasPacking.StepFailure` | src/graphics/texture-font.cpp:140-143 | a placement step fails with the load error exactly when the face cannot render the character, and with "could not fit" exactly when the wrapped target row leaves y + h > atlas height; a successful step adds one upload ending at or above the bottom edge |
| `AtlasPacking.PackErrPropagates` | src/graphics/texture-font.cpp:116-118 | once a prefix of the characters fails, the whole setup fails with that same error |
| `AtlasPacking.PackPrefix` | src/graphics/texture-font.cpp:115-122 | on success every prefix also succeeds and its uploads are exactly the first uploads of the whole run: later glyphs never move earlier ones |
| `AtlasPacking.PackFailure` | src/graphics/texture-font.cpp:115-122 | setup fails exactly when some character reached with all earlier ones placed fails its own step, and the result is that step's error |
| `AtlasPacking.PackFailureWitness` | src/graphics/texture-font.cpp:115-122 | a failed setup names a character, reached with every earlier one placed, whose own step fails with the setup's error |
| `AtlasPacking.PackSuccessNoFailure` | src/graphics/texture-font.cpp:115-122 | in a successful setup no character's step fails |
| `AtlasPacking.PackLoadFailure` | src/graphics/texture-font.cpp:78-81 | a character the face cannot render anywhere in the input makes the whole setup fail |
| `AtlasPacking.ThreeSquaresFit` | src/graphics/texture-font.cpp:131-145 | three 4×4 glyphs in a 9×8 atlas land at (0,0), (5,0) and (0,4) |
| `AtlasPacking.ThreeSquaresOverflow` | src/graphics/texture-font.cpp:140-143 | the same glyphs in a 9×4 atlas fail with "could not fit" |
| `AtlasPacking.ThreeSquaresTooNarrow` | src/graphics/texture-font.cpp:135-143 | in an 8×8 atlas the second glyph wraps to (0,4) and the third does not fit |
| `AtlasPacking.ThreeSquaresTooShort` | src/graphics/texture-font.cpp:135-143 | in an 8×4 atlas the second glyph wraps to y = 4 and already does not fit, so the whole setup fails |
| `TextMeasure.MeasureConcat` | src/graphics/texture-font.cpp:156-163 | measuring a + b equals measuring a plus measuring b; with b empty this includes the empty string measuring 0 |
| `TextMeasure.MeasurePacked` | src/graphics/texture-font.cpp:156-163 | after a successful setup, any text of packed characters measures the sum of the face's floor(raw/64) horizontal advances |
| `TextMeasure.ThreeSquaresWidth` | src/graphics/texture-font.cpp:156-163 | "ABC" with three 5-pixel advances measures 15 |
| `TextureFonts.TextureFont.constructor` | src/graphics/texture-font.cpp:29-33 | a new font has the given texture size, no glyphs, no uploads and running maximum 0 |
| `TextureFonts.TextureFont.PlaceGlyph` | src/graphics/texture-font.cpp:131-149 | updates the running maximum, wraps exactly when x + w > width, fails without uploading when y + h > height, otherwise uploads the rectangle and returns the glyph at its atlas position; the table is untouched |
| `TextureFonts.TextureFont.SetupGlyphs` | src/graphics/texture-font.cpp:115-122 | the loop leaves the object in exactly the state `Pack` computes; on failure it returns that error, the table and uploads are those of the characters placed before the failing one, and the running maximum is as that character's load or placement left it |
| `TextureFonts.TextureFont.MeasureString` | src/graphics/texture-font.cpp:156-163 | returns the summed advance.x of the text's glyphs |
| `TextureFonts.NewTextureFont` | src/graphics/texture-font.cpp:29-50 | a fresh 1024×1024 font holding the packed state, or the setup's error and no font |
| `VertexDeclarations.StrideAppend` | src/graphics/vertex-declaration.cpp:26-29 | the stride of a concatenation is the sum of the strides |
| `VertexDeclarations.FirstMissing` | src/graphics/vertex-declaration.cpp:31-37 | the count of elements before the first whose attribute lookup returns −1: all before it resolve, it does not |
| `VertexDeclarations.OffsetsMonotone` | src/graphics/vertex-declaration.cpp:30-42 | the first offset is 0, and with non-negative widths offsets never decrease |
| `VertexDeclarations.StrideNonNegative` | src/graphics/vertex-declaration.cpp:26-29 | non-negative widths give a non-negative stride |
| `VertexDeclarations.LastOffset` | src/graphics/vertex-declaration.cpp:26-42 | the last element's offset plus its width equals the stride |
| `VertexDeclarations.AppendKeepsOffsets` | src/graphics/vertex-declaration.cpp:46-49 | appending an element keeps every earlier offset and adds its width to the stride |
| `VertexDeclarations.VertexDeclaration.AddElement` | src/graphics/vertex-declaration.cpp:46-49 | appends {name, size, offset} at the end, earlier elements and their order unchanged |
| `VertexDeclarations.VertexDeclaration.Setup` | src/graphics/vertex-declaration.cpp:25-44 | binds exactly the elements before the first unresolved one; each with its lookup location, its own size, the common stride (sum of all widths) and the sum of the earlier widths as offset; fails naming the first unresolved element, and succeeds exactly when every name resolves |

## Left out

- FreeType library and face setup and teardown (`FT_Init_FreeType`, `FT_New_Face`, `FT_Set_Pixel_Sizes`, `FT_Done_*`, src/graphics/texture-font.cpp:37-49): foreign calls. The loaded face is the `FontFace` parameter, so the "failed to initialize / failed to load font" errors are not modelled.
- The text of the error messages: errors are the `FontError` and `SetupError` values; `SetupError` carries the element name that the source's message quotes.
- The pixel data of each glyph bitmap and the `glTexSubImage2D` blit: only the rectangle written is recorded. Texture unit save and restore, unpack alignment and filter settings are OpenGL state glue.
- The scripting-runtime bindings (`New`, `Initialize`, the script-side `measureString` callback) and their argument defaulting, including the default character set: they only wrap the native object.
- `glGetAttribLocation`, `glEnableVertexAttribArray` and `glVertexAttribPointer`: replaced by the `lookup` parameter and the returned bindings.
- src/audio/wave-format.h: a data struct whose `Load` body is not part of this model. examples/create-window.js: a window event loop.
- Characters: the source loops over the bytes of a `std::string` (`char`), so a multi-byte UTF-8 character means several glyph loads, uploads and table keys. Each Dafny `char` here stands for one such byte.
- 32-bit `int` arithmetic: cursor coordinates, the running maximum, the measured width and the stride are unbounded integers, so no overflow or wrap-around is modelled.
- `TextureFonts.TextureFont.MeasureString`: requires every character of the text to be in the table. The behaviour of the source's glyph container on a missing key is not visible.
- `Glyphs.LoadGlyph`: the source leaves the glyph's atlas position uninitialised until placement; the model sets it to (0,0).
- `Glyphs.ShiftRight6`: the source shifts a signed `FT_Pos`. That is floor division by 64 on the usual compilers, but implementation-defined for negative values before C++20. The model uses floor division.
