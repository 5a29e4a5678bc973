/**
 * Glyph records of a texture font and the conversion of the rasteriser's
 * per-character metrics into them (TextureFont::LoadGlyph).
 */
module Glyphs {
  import opened Wrappers

  /** A pair of whole-pixel coordinates. */
  datatype Vec = Vec(x: int, y: int)

  /** A rectangle of the atlas: its origin and the size of the glyph bitmap. */
  datatype Rect = Rect(x: int, y: int, w: nat, h: nat)

  /** What the font keeps per character: bearing, place in the atlas, pen advance. */
  datatype Glyph = Glyph(offset: Vec, source: Rect, advance: Vec)

  /**
   * What the rasteriser reports after rendering one character: the bitmap's
   * width and rows (unsigned), its left and top bearing, and the advance
   * vector in 26.6 fixed point (1/64 pixel).
   */
  datatype Metrics = Metrics(width: nat, rows: nat, left: int, top: int, advanceX: int, advanceY: int)

  /** The loaded font face at its pixel size: None when rendering the character fails. */
  type FontFace = char -> Option<Metrics>

  /** The two ways building the glyph atlas can fail. */
  datatype FontError = LoadCharFailed | AtlasFull

  /** Arithmetic shift right by 6: 26.6 fixed point truncated to whole pixels (towards minus infinity). */
  function ShiftRight6(v: int): (r: int)
    ensures r * 64 <= v < r * 64 + 64
    ensures v >= 0 ==> r >= 0
  {
    v / 64
  }

  /**
   * Renders one character and turns its metrics into a glyph record. The
   * atlas position is not known yet; it is left at the origin and set when
   * the glyph is placed.
   */
  function LoadGlyph(face: FontFace, c: char): (r: Result<Glyph, FontError>)
    ensures r.Err? <==> face(c).None?
    ensures r.Err? ==> r.error == LoadCharFailed
    ensures r.Ok? ==>
      var m, g := face(c).value, r.value;
      g.offset == Vec(m.left, m.top) &&
      g.source.w == m.width && g.source.h == m.rows &&
      g.advance.x * 64 <= m.advanceX < g.advance.x * 64 + 64 &&
      g.advance.y * 64 <= m.advanceY < g.advance.y * 64 + 64
  {
    match face(c)
    case None => Err(LoadCharFailed)
    case Some(m) =>
      Ok(Glyph(Vec(m.left, m.top), Rect(0, 0, m.width, m.rows),
               Vec(ShiftRight6(m.advanceX), ShiftRight6(m.advanceY))))
  }
}
