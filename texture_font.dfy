/**
 * The TextureFont object: a fixed-size atlas texture plus the state its
 * glyph setup mutates (the running maximum glyph height and the glyph
 * table). Texture uploads are recorded as the rectangles they cover.
 */
module TextureFonts {
  import opened Wrappers
  import opened Glyphs
  import opened AtlasPacking
  import opened TextMeasure

  class TextureFont {
    /** Size of the atlas texture. */
    const width: int
    const height: int
    /** Tallest glyph of the current row, including the one being placed. */
    var maxGlyphHeight: int
    var glyphs: map<char, Glyph>
    /** Rectangles written to the texture so far, in order. */
    var uploads: seq<Rect>

    /** A font whose setup has not run: nothing uploaded, running maximum 0. */
    constructor (width: int, height: int)
      ensures this.width == width && this.height == height
      ensures maxGlyphHeight == 0 && glyphs == map[] && uploads == []
    {
      this.width, this.height := width, height;
      maxGlyphHeight, glyphs, uploads := 0, map[], [];
    }

    /** The packer state this object is in, with the given cursor. */
    function State(x: int, y: int): PackState
      reads this
    {
      PackState(x, y, maxGlyphHeight, glyphs, uploads)
    }

    /**
     * Places a glyph offered at cursor (x, y): updates the running maximum,
     * wraps to a new row when the glyph would cross the right edge, fails
     * without uploading when it would cross the bottom edge, and otherwise
     * records the upload and returns the glyph with its atlas position.
     */
    method PlaceGlyph(glyph: Glyph, x: int, y: int) returns (r: Result<Glyph, FontError>)
      modifies this
      ensures glyphs == old(glyphs)
      ensures var t := Target(width, old(maxGlyphHeight), x, y, glyph.source.w, glyph.source.h);
        maxGlyphHeight == t.maxHeight &&
        if t.y + glyph.source.h > height then
          r == Err(AtlasFull) && uploads == old(uploads)
        else
          r == Ok(glyph.(source := glyph.source.(x := t.x, y := t.y))) && uploads == old(uploads) + [r.value.source]
    {
      var px, py := x, y;
      if glyph.source.h > maxGlyphHeight {
        maxGlyphHeight := glyph.source.h;
      }
      if px + glyph.source.w > width {
        px := 0;
        py := py + maxGlyphHeight;
        maxGlyphHeight := glyph.source.h;
      }
      if py + glyph.source.h > height {
        return Err(AtlasFull);
      }
      var placed := glyph.(source := glyph.source.(x := px, y := py));
      uploads := uploads + [placed.source];
      r := Ok(placed);
    }

    /**
     * Loads and places every character in order, starting at the origin.
     * On success the object holds the packed state; on the first failure
     * the error is returned, the table and uploads are those of the
     * characters placed before the failing one, and the running maximum is
     * untouched by a load failure or updated as PlaceGlyph left it.
     */
    method SetupGlyphs(face: FontFace, chars: string) returns (err: Option<FontError>)
      modifies this
      ensures var r := Pack(face, chars, width, height, old(State(0, 0)));
        match r
        case Ok(s) =>
          err == None && maxGlyphHeight == s.maxHeight && glyphs == s.glyphs && uploads == s.uploads
        case Err(e) =>
          err == Some(e) &&
          exists k | 0 <= k < |chars| :: FailsAt(face, chars, k, width, height, old(State(0, 0))) &&
            var p := Pack(face, chars[..k], width, height, old(State(0, 0))).value;
            glyphs == p.glyphs && uploads == p.uploads &&
            maxGlyphHeight == match LoadGlyph(face, chars[k])
              case Err(_) => p.maxHeight
              case Ok(g) => Target(width, p.maxHeight, p.x, p.y, g.source.w, g.source.h).maxHeight
    {
      ghost var start := State(0, 0);
      var x, y := 0, 0;
      var i := 0;
      while i < |chars|
        invariant 0 <= i <= |chars|
        invariant Pack(face, chars[..i], width, height, start) == Ok(State(x, y))
      {
        var c := chars[i];
        assert chars[..i + 1][..i] == chars[..i];
        ghost var before := State(x, y);
        var loaded := LoadGlyph(face, c);
        if loaded.Err? {
          assert FailsAt(face, chars, i, width, height, start);
          PackErrPropagates(face, chars, i + 1, width, height, start);
          return Some(loaded.error);
        }
        var placed := PlaceGlyph(loaded.value, x, y);
        if placed.Err? {
          assert FailsAt(face, chars, i, width, height, start);
          PackErrPropagates(face, chars, i + 1, width, height, start);
          return Some(placed.error);
        }
        var glyph := placed.value;
        x := glyph.source.x + glyph.source.w + 1;
        y := glyph.source.y;
        glyphs := glyphs[c := glyph];
        assert Step(face, width, height, before, c) == Ok(State(x, y));
        i := i + 1;
      }
      assert chars[..i] == chars;
      return None;
    }

    /** Sum of the horizontal advances of the text's glyphs. */
    method MeasureString(text: string) returns (size: int)
      requires Covers(glyphs, text)
      ensures size == Measure(glyphs, text)
    {
      size := 0;
      var i := 0;
      while i < |text|
        invariant 0 <= i <= |text|
        invariant Covers(glyphs, text[..i])
        invariant size == Measure(glyphs, text[..i])
      {
        assert text[..i + 1][..i] == text[..i];
        size := size + glyphs[text[i]].advance.x;
        i := i + 1;
      }
      assert text[..i] == text;
    }
  }

  /**
   * Builds a font on a fresh 1024-by-1024 atlas and runs the glyph setup; a
   * failure yields the error and no font object.
   */
  method NewTextureFont(face: FontFace, chars: string) returns (r: Result<TextureFont, FontError>)
    ensures match Pack(face, chars, AtlasSize, AtlasSize, Initial)
      case Ok(s) =>
        r.Ok? && fresh(r.value) && r.value.width == AtlasSize && r.value.height == AtlasSize &&
        r.value.glyphs == s.glyphs && r.value.uploads == s.uploads && r.value.maxGlyphHeight == s.maxHeight
      case Err(e) => r == Err(e)
  {
    var font := new TextureFont(AtlasSize, AtlasSize);
    var err := font.SetupGlyphs(face, chars);
    if err.Some? {
      return Err(err.value);
    }
    return Ok(font);
  }
}
