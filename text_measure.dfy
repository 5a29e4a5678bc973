/** String width as TextureFont::MeasureString computes it: the sum of horizontal advances, no kerning. */
module TextMeasure {
  import opened Wrappers
  import opened Glyphs
  import opened AtlasPacking

  /** Every character of the text has an entry in the glyph table. */
  predicate Covers(glyphs: map<char, Glyph>, text: string)
  {
    forall i | 0 <= i < |text| :: text[i] in glyphs
  }

  /** The summed advance.x of the text's glyphs, in the order the loop adds them. */
  function Measure(glyphs: map<char, Glyph>, text: string): int
    requires Covers(glyphs, text)
  {
    if text == [] then 0 else Measure(glyphs, text[..|text| - 1]) + glyphs[text[|text| - 1]].advance.x
  }

  /** Measuring is additive over concatenation; with b empty, the empty string measures 0. */
  lemma {:induction false} MeasureConcat(glyphs: map<char, Glyph>, a: string, b: string)
    requires Covers(glyphs, a) && Covers(glyphs, b)
    ensures Covers(glyphs, a + b)
    ensures Measure(glyphs, a + b) == Measure(glyphs, a) + Measure(glyphs, b)
  {
    assert Covers(glyphs, a + b) by {
      forall i | 0 <= i < |a + b| ensures (a + b)[i] in glyphs {
        if i >= |a| { assert (a + b)[i] == b[i - |a|]; }
      }
    }
    if b == [] {
      assert a + b == a;
    } else {
      var n := |b| - 1;
      assert (a + b)[..|a + b| - 1] == a + b[..n];
      assert Covers(glyphs, b[..n]);
      MeasureConcat(glyphs, a, b[..n]);
    }
  }

  /** The advance the face gives a character, in whole pixels (0 for one it cannot render). */
  function AdvanceX(face: FontFace, c: char): int
  {
    match face(c)
    case None => 0
    case Some(m) => ShiftRight6(m.advanceX)
  }

  /** The width of the text taken straight from the face, first character first. */
  function FaceWidth(face: FontFace, text: string): int
  {
    if text == [] then 0 else AdvanceX(face, text[0]) + FaceWidth(face, text[1..])
  }

  /**
   * After a successful setup, measuring any text made of packed characters
   * gives the face's own advances, whichever occurrence of a duplicate was
   * kept in the table.
   */
  lemma {:induction false} MeasurePacked(face: FontFace, chars: string, width: int, height: int, text: string)
    requires Pack(face, chars, width, height, Initial).Ok?
    requires forall i | 0 <= i < |text| :: text[i] in chars
    ensures Covers(Pack(face, chars, width, height, Initial).value.glyphs, text)
    ensures Measure(Pack(face, chars, width, height, Initial).value.glyphs, text) == FaceWidth(face, text)
  {
    var g := Pack(face, chars, width, height, Initial).value.glyphs;
    assert Covers(g, text);
    if text != [] {
      PackGlyphMetrics(face, chars, width, height);
      var rest := text[1..];
      MeasurePacked(face, chars, width, height, rest);
      MeasureConcat(g, [text[0]], rest);
      assert [text[0]] + rest == text;
      assert [text[0]][..0] == [];
    }
  }

  /** "ABC" in the 9-by-8 layout of the square glyphs measures 15. */
  lemma ThreeSquaresWidth()
    ensures Pack(SquareFace, "ABC", 9, 8, Initial).Ok?
    ensures Covers(Pack(SquareFace, "ABC", 9, 8, Initial).value.glyphs, "ABC")
    ensures Measure(Pack(SquareFace, "ABC", 9, 8, Initial).value.glyphs, "ABC") == 15
  {
    ThreeSquaresFit();
    SquareFaceRenders();
    assert forall i | 0 <= i < |"ABC"| :: "ABC"[i] in "ABC";
    MeasurePacked(SquareFace, "ABC", 9, 8, "ABC");
    assert "ABC"[1..] == "BC" && "BC"[1..] == "C" && "C"[1..] == "";
  }
}
