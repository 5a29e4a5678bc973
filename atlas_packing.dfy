/**
 * The shelf packer behind TextureFont::SetupGlyphs and TextureFont::PlaceGlyph,
 * as functions of the characters to pack, the font face and the atlas size.
 * Glyphs are laid out left to right with a one-pixel gutter; a glyph that
 * would cross the right edge starts a new row below the tallest glyph seen
 * so far; a glyph that would cross the bottom edge fails the whole setup.
 */
module AtlasPacking {
  import opened Wrappers
  import opened Glyphs

  /** Width and height of the font texture created by the TextureFont constructor. */
  const AtlasSize := 1024

  /**
   * The packer's state between two glyphs: the cursor handed to the next
   * placement, the running maximum glyph height, the glyph table and the
   * rectangles uploaded to the texture so far, in upload order.
   */
  datatype PackState = PackState(x: int, y: int, maxHeight: int, glyphs: map<char, Glyph>, uploads: seq<Rect>)

  /** The state before the first glyph; the maximum height starts at 0. */
  const Initial := PackState(0, 0, 0, map[], [])

  /** Where PlaceGlyph puts a w-by-h glyph offered at (x, y), and the maximum height it leaves. */
  datatype Slot = Slot(x: int, y: int, maxHeight: int)

  function Target(width: int, maxHeight: int, x: int, y: int, w: nat, h: nat): Slot
  {
    var m := if h > maxHeight then h else maxHeight;
    if x + w > width then Slot(0, y + m, h) else Slot(x, y, m)
  }

  /** One iteration of the SetupGlyphs loop: load, place, advance the cursor, record. */
  function Step(face: FontFace, width: int, height: int, s: PackState, c: char): Result<PackState, FontError>
  {
    match LoadGlyph(face, c)
    case Err(e) => Err(e)
    case Ok(g) =>
      var t := Target(width, s.maxHeight, s.x, s.y, g.source.w, g.source.h);
      if t.y + g.source.h > height then Err(AtlasFull)
      else
        var r := Rect(t.x, t.y, g.source.w, g.source.h);
        Ok(PackState(r.x + r.w + 1, r.y, t.maxHeight, s.glyphs[c := g.(source := r)], s.uploads + [r]))
  }

  /** The whole SetupGlyphs loop over `chars`, started in `start`. */
  function Pack(face: FontFace, chars: string, width: int, height: int, start: PackState): (r: Result<PackState, FontError>)
    ensures r.Ok? ==> |r.value.uploads| == |start.uploads| + |chars|
    ensures r.Ok? ==> r.value.uploads[..|start.uploads|] == start.uploads
    ensures r.Ok? ==> r.value.glyphs.Keys == start.glyphs.Keys + (set c | c in chars)
    decreases |chars|
  {
    if chars == [] then Ok(start)
    else
      var prefix := chars[..|chars| - 1];
      assert (set c | c in chars) == (set c | c in prefix) + {chars[|chars| - 1]} by {
        assert chars == prefix + [chars[|chars| - 1]];
      }
      match Pack(face, prefix, width, height, start)
      case Err(e) => Err(e)
      case Ok(s) => Step(face, width, height, s, chars[|chars| - 1])
  }

  // ---------------------------------------------------------------------------
  // Geometry of the packed atlas
  // ---------------------------------------------------------------------------

  /** Two rectangles share no pixel. */
  predicate Disjoint(a: Rect, b: Rect)
  {
    a.x + a.w <= b.x || b.x + b.w <= a.x || a.y + a.h <= b.y || b.y + b.h <= a.y
  }

  /**
   * Inside the atlas: never above or left of it, never below it, and never
   * past its right edge unless the glyph alone is wider than the atlas (it is
   * then put at the start of a row).
   */
  predicate InAtlas(r: Rect, width: int, height: int)
  {
    0 <= r.x && 0 <= r.y && r.y + r.h <= height &&
    (r.x + r.w <= width || (r.x == 0 && r.w > width))
  }

  /**
   * How glyph b is placed right after glyph a: on a's row, one gutter pixel
   * to its right, exactly when it fits before the right edge; otherwise at
   * the start of a new row wholly below a.
   */
  predicate Follows(a: Rect, b: Rect, width: int)
  {
    if a.x + a.w + 1 + b.w <= width then b.x == a.x + a.w + 1 && b.y == a.y
    else b.x == 0 && b.y >= a.y + a.h
  }

  /** An uploaded rectangle is above the current row, or on it, left of the cursor and no taller than the row's maximum. */
  predicate Behind(r: Rect, s: PackState)
  {
    r.y + r.h <= s.y || (r.y == s.y && r.h <= s.maxHeight && r.x + r.w < s.x)
  }

  /** The invariant the placement loop keeps, starting from the initial state. */
  ghost predicate Packed(s: PackState, width: int, height: int)
  {
    var u := s.uploads;
    0 <= s.x && 0 <= s.y && 0 <= s.maxHeight &&
    (u == [] ==> s.x == 0 && s.y == 0 && s.maxHeight == 0) &&
    (u != [] ==> s.x == u[|u| - 1].x + u[|u| - 1].w + 1 && s.y == u[|u| - 1].y) &&
    (u != [] ==> u[0].x == 0 && (u[0].w <= width ==> u[0].y == 0)) &&
    (forall i | 0 <= i < |u| :: InAtlas(u[i], width, height) && Behind(u[i], s)) &&
    (forall i, j | 0 <= i < j < |u| :: Disjoint(u[i], u[j]) && u[i].y <= u[j].y) &&
    (forall i | 0 <= i < |u| - 1 :: Follows(u[i], u[i + 1], width))
  }

  /** One placement keeps the invariant. */
  lemma StepPacked(face: FontFace, width: int, height: int, s: PackState, c: char)
    requires Packed(s, width, height)
    requires Step(face, width, height, s, c).Ok?
    ensures Packed(Step(face, width, height, s, c).value, width, height)
  {
  }

  lemma {:induction false} PackPacked(face: FontFace, chars: string, width: int, height: int)
    requires Pack(face, chars, width, height, Initial).Ok?
    ensures Packed(Pack(face, chars, width, height, Initial).value, width, height)
  {
    if chars != [] {
      var prefix := chars[..|chars| - 1];
      PackPacked(face, prefix, width, height);
      StepPacked(face, width, height, Pack(face, prefix, width, height, Initial).value, chars[|chars| - 1]);
    }
  }

  // ---------------------------------------------------------------------------
  // What a successful setup guarantees
  // ---------------------------------------------------------------------------

  /** Every uploaded rectangle lies inside the atlas (a glyph wider than the atlas is the only one that may stick out, at the start of a row). */
  lemma PackInBounds(face: FontFace, chars: string, width: int, height: int)
    requires Pack(face, chars, width, height, Initial).Ok?
    ensures var u := Pack(face, chars, width, height, Initial).value.uploads;
      forall i | 0 <= i < |u| :: InAtlas(u[i], width, height)
  {
    PackPacked(face, chars, width, height);
  }

  /** When no glyph is wider than the atlas, no rectangle crosses its right edge. */
  lemma PackWithinWidth(face: FontFace, chars: string, width: int, height: int)
    requires Pack(face, chars, width, height, Initial).Ok?
    requires forall i | 0 <= i < |chars| :: face(chars[i]).Some? ==> face(chars[i]).value.width <= width
    ensures var u := Pack(face, chars, width, height, Initial).value.uploads;
      forall i | 0 <= i < |u| :: 0 <= u[i].x && u[i].x + u[i].w <= width
  {
    PackPacked(face, chars, width, height);
    var u := Pack(face, chars, width, height, Initial).value.uploads;
    forall i | 0 <= i < |u|
      ensures u[i].x + u[i].w <= width
    {
      PackUploadSizes(face, chars, width, height, Initial, i);
    }
  }

  /** The i-th upload has the size of the i-th character's bitmap. */
  lemma {:induction false} PackUploadSizes(face: FontFace, chars: string, width: int, height: int, start: PackState, i: nat)
    requires Pack(face, chars, width, height, start).Ok?
    requires i < |chars|
    ensures var r := Pack(face, chars, width, height, start).value.uploads[|start.uploads| + i];
      face(chars[i]).Some? && r.w == face(chars[i]).value.width && r.h == face(chars[i]).value.rows
  {
    var prefix := chars[..|chars| - 1];
    var s := Pack(face, prefix, width, height, start).value;
    if i < |chars| - 1 {
      PackUploadSizes(face, prefix, width, height, start, i);
      assert Pack(face, chars, width, height, start).value.uploads[|start.uploads| + i] == s.uploads[|start.uploads| + i];
    }
  }

  /** No two uploaded rectangles overlap. */
  lemma PackNoOverlap(face: FontFace, chars: string, width: int, height: int)
    requires Pack(face, chars, width, height, Initial).Ok?
    ensures var u := Pack(face, chars, width, height, Initial).value.uploads;
      forall i, j | 0 <= i < |u| && 0 <= j < |u| && i != j :: Disjoint(u[i], u[j])
  {
    PackPacked(face, chars, width, height);
    var u := Pack(face, chars, width, height, Initial).value.uploads;
    forall i, j | 0 <= i < |u| && 0 <= j < |u| && i != j
      ensures Disjoint(u[i], u[j])
    {
      if j < i { assert Disjoint(u[j], u[i]); }
    }
  }

  /**
   * Row layout: the first glyph is at the left edge (and at the top when it
   * fits the width); each later glyph sits one gutter pixel right of the
   * previous one on the same row exactly when it fits before the right edge,
   * and otherwise starts a new row below it; rows never move up.
   */
  lemma PackRows(face: FontFace, chars: string, width: int, height: int)
    requires Pack(face, chars, width, height, Initial).Ok?
    ensures var u := Pack(face, chars, width, height, Initial).value.uploads;
      (u != [] ==> u[0].x == 0 && (u[0].w <= width ==> u[0].y == 0)) &&
      (forall i | 0 <= i < |u| - 1 :: Follows(u[i], u[i + 1], width)) &&
      (forall i, j | 0 <= i <= j < |u| :: u[i].y <= u[j].y)
  {
    PackPacked(face, chars, width, height);
  }

  /**
   * After a successful setup the cursor stands one gutter pixel right of the
   * last upload, and the running maximum is the height of the tallest glyph
   * of the last row: it bounds every glyph there and one of them reaches it.
   */
  lemma PackCursor(face: FontFace, chars: string, width: int, height: int)
    requires Pack(face, chars, width, height, Initial).Ok?
    ensures var s := Pack(face, chars, width, height, Initial).value; var u := s.uploads;
      (u != [] ==> s.x == u[|u| - 1].x + u[|u| - 1].w + 1 && s.y == u[|u| - 1].y) &&
      (forall i | 0 <= i < |u| && u[i].y == s.y && u[i].h > 0 :: u[i].h <= s.maxHeight) &&
      (u != [] ==> exists i | 0 <= i < |u| :: u[i].y == s.y && u[i].h == s.maxHeight)
  {
    PackPacked(face, chars, width, height);
    PackRowMaximum(face, chars, width, height);
    var s := Pack(face, chars, width, height, Initial).value;
    forall i | 0 <= i < |s.uploads| && s.uploads[i].y == s.y && s.uploads[i].h > 0
      ensures s.uploads[i].h <= s.maxHeight
    {
      assert Behind(s.uploads[i], s);
    }
  }

  /** Some glyph on the cursor's row is exactly as tall as the running maximum. */
  lemma {:induction false} PackRowMaximum(face: FontFace, chars: string, width: int, height: int)
    requires Pack(face, chars, width, height, Initial).Ok?
    ensures var s := Pack(face, chars, width, height, Initial).value; var u := s.uploads;
      u != [] ==> exists i | 0 <= i < |u| :: u[i].y == s.y && u[i].h == s.maxHeight
  {
    if chars != [] {
      var n := |chars| - 1;
      var prefix := chars[..n];
      var p := Pack(face, prefix, width, height, Initial).value;
      PackPacked(face, prefix, width, height);
      var c := chars[n];
      assert Pack(face, chars, width, height, Initial) == Step(face, width, height, p, c);
      var s := Pack(face, chars, width, height, Initial).value;
      var g := LoadGlyph(face, c).value;
      var t := Target(width, p.maxHeight, p.x, p.y, g.source.w, g.source.h);
      var r := Rect(t.x, t.y, g.source.w, g.source.h);
      assert s.uploads == p.uploads + [r] && s.y == r.y && s.maxHeight == t.maxHeight;
      if t.maxHeight == g.source.h {
        assert s.uploads[|p.uploads|] == r;
      } else {
        assert p.uploads != [] && t.y == p.y && t.maxHeight == p.maxHeight;
        PackRowMaximum(face, prefix, width, height);
        var i :| 0 <= i < |p.uploads| && p.uploads[i].y == p.y && p.uploads[i].h == p.maxHeight;
        assert s.uploads[i] == p.uploads[i];
      }
    }
  }

  // ---------------------------------------------------------------------------
  // The glyph table
  // ---------------------------------------------------------------------------

  /** Position j holds the last occurrence of its character. */
  predicate LastOccurrence(chars: string, j: int)
    requires 0 <= j < |chars|
  {
    forall k | j < k < |chars| :: chars[k] != chars[j]
  }

  /** Entry j of the table: the glyph rendered for chars[j], placed at the j-th upload. */
  ghost predicate RecordsAt(face: FontFace, chars: string, s: PackState, j: int)
    requires 0 <= j < |chars|
  {
    chars[j] in s.glyphs && LoadGlyph(face, chars[j]).Ok? && j < |s.uploads| &&
    s.glyphs[chars[j]] == LoadGlyph(face, chars[j]).value.(source := s.uploads[j])
  }

  ghost predicate RecordsLast(face: FontFace, chars: string, s: PackState)
  {
    forall j | 0 <= j < |chars| && LastOccurrence(chars, j) :: RecordsAt(face, chars, s, j)
  }

  lemma TableStep(face: FontFace, width: int, height: int, prefix: string, p: PackState, c: char)
    requires RecordsLast(face, prefix, p) && |p.uploads| == |prefix|
    requires Step(face, width, height, p, c).Ok?
    ensures RecordsLast(face, prefix + [c], Step(face, width, height, p, c).value)
  {
    var chars := prefix + [c];
    var n := |prefix|;
    var s := Step(face, width, height, p, c).value;
    var g := LoadGlyph(face, c).value;
    var t := Target(width, p.maxHeight, p.x, p.y, g.source.w, g.source.h);
    var r := Rect(t.x, t.y, g.source.w, g.source.h);
    assert s.glyphs == p.glyphs[c := g.(source := r)] && s.uploads == p.uploads + [r];
    forall j | 0 <= j < |chars| && LastOccurrence(chars, j)
      ensures RecordsAt(face, chars, s, j)
    {
      if j < n {
        assert chars[j] == prefix[j];
        assert chars[n] == c;
        forall k | j < k < |prefix| ensures prefix[k] != prefix[j] {
          assert chars[k] == prefix[k];
        }
        assert RecordsAt(face, prefix, p, j);
        assert s.uploads[j] == p.uploads[j];
      } else {
        assert chars[j] == c && s.uploads[j] == r;
      }
    }
  }

  /**
   * Every packed character maps to its rendered glyph placed at the rectangle
   * of its last occurrence; earlier duplicates still took atlas space.
   */
  lemma {:induction false} PackTable(face: FontFace, chars: string, width: int, height: int)
    requires Pack(face, chars, width, height, Initial).Ok?
    ensures RecordsLast(face, chars, Pack(face, chars, width, height, Initial).value)
  {
    if chars != [] {
      var n := |chars| - 1;
      var prefix := chars[..n];
      PackTable(face, prefix, width, height);
      assert prefix + [chars[n]] == chars;
      TableStep(face, width, height, prefix, Pack(face, prefix, width, height, Initial).value, chars[n]);
    }
  }

  /** Whichever occurrence a table entry came from, it keeps the bearing, size and advance the face gives its character. */
  lemma {:induction false} PackGlyphMetrics(face: FontFace, chars: string, width: int, height: int)
    requires Pack(face, chars, width, height, Initial).Ok?
    ensures var s := Pack(face, chars, width, height, Initial).value;
      forall c | c in s.glyphs ::
        LoadGlyph(face, c).Ok? && s.glyphs[c] == LoadGlyph(face, c).value.(source := s.glyphs[c].source)
  {
    if chars != [] {
      var prefix := chars[..|chars| - 1];
      PackGlyphMetrics(face, prefix, width, height);
    }
  }

  // ---------------------------------------------------------------------------
  // Failure
  // ---------------------------------------------------------------------------

  /**
   * A step fails for exactly two reasons: the character cannot be rendered,
   * or its target row leaves no room below for it.
   */
  lemma StepFailure(face: FontFace, width: int, height: int, s: PackState, c: char)
    ensures Step(face, width, height, s, c) == Err(LoadCharFailed) <==> face(c).None?
    ensures Step(face, width, height, s, c) == Err(AtlasFull) <==>
      face(c).Some? &&
      Target(width, s.maxHeight, s.x, s.y, face(c).value.width, face(c).value.rows).y + face(c).value.rows > height
    ensures Step(face, width, height, s, c).Ok? ==>
      var u := Step(face, width, height, s, c).value.uploads;
      |u| == |s.uploads| + 1 && u[|s.uploads|].y + u[|s.uploads|].h <= height
  {
  }

  /** An error in a prefix is the error of the whole setup: nothing after it is tried. */
  lemma {:induction false} PackErrPropagates(face: FontFace, chars: string, k: nat, width: int, height: int, start: PackState)
    requires k <= |chars|
    requires Pack(face, chars[..k], width, height, start).Err?
    ensures Pack(face, chars, width, height, start) == Pack(face, chars[..k], width, height, start)
    decreases |chars| - k
  {
    if k < |chars| {
      var n := |chars| - 1;
      assert chars[..n][..k] == chars[..k];
      PackErrPropagates(face, chars[..n], k, width, height, start);
    } else {
      assert chars[..k] == chars;
    }
  }

  /** A successful setup succeeded on every prefix, and placed that prefix exactly where the whole run did. */
  lemma {:induction false} PackPrefix(face: FontFace, chars: string, k: nat, width: int, height: int, start: PackState)
    requires k <= |chars|
    requires Pack(face, chars, width, height, start).Ok?
    ensures Pack(face, chars[..k], width, height, start).Ok?
    ensures Pack(face, chars[..k], width, height, start).value.uploads ==
            Pack(face, chars, width, height, start).value.uploads[..|start.uploads| + k]
    decreases |chars| - k
  {
    if k < |chars| {
      var n := |chars| - 1;
      var prefix := chars[..n];
      assert prefix[..k] == chars[..k];
      PackPrefix(face, prefix, k, width, height, start);
      var u := Pack(face, chars, width, height, start).value.uploads;
      var p := Pack(face, prefix, width, height, start).value.uploads;
      assert u[..|p|] == p;
      assert p[..|start.uploads| + k] == u[..|start.uploads| + k];
    } else {
      assert chars[..k] == chars;
    }
  }

  /** The setup fails exactly when some character, reached with every earlier one placed, fails its own step; that step's error is the result. */
  ghost predicate FailsAt(face: FontFace, chars: string, k: int, width: int, height: int, start: PackState)
    requires 0 <= k < |chars|
  {
    Pack(face, chars[..k], width, height, start).Ok? &&
    Step(face, width, height, Pack(face, chars[..k], width, height, start).value, chars[k]).Err?
  }

  /** A failed setup fails at some character, with that character's error. */
  lemma {:induction false} PackFailureWitness(face: FontFace, chars: string, width: int, height: int, start: PackState)
    requires Pack(face, chars, width, height, start).Err?
    ensures exists k | 0 <= k < |chars| ::
      FailsAt(face, chars, k, width, height, start) &&
      Pack(face, chars, width, height, start).error ==
      Step(face, width, height, Pack(face, chars[..k], width, height, start).value, chars[k]).error
  {
    var n := |chars| - 1;
    var prefix := chars[..n];
    if Pack(face, prefix, width, height, start).Err? {
      PackFailureWitness(face, prefix, width, height, start);
      var k :| 0 <= k < n && FailsAt(face, prefix, k, width, height, start) &&
        Pack(face, prefix, width, height, start).error ==
        Step(face, width, height, Pack(face, prefix[..k], width, height, start).value, prefix[k]).error;
      assert prefix[..k] == chars[..k] && prefix[k] == chars[k];
      assert FailsAt(face, chars, k, width, height, start);
    } else {
      assert FailsAt(face, chars, n, width, height, start);
    }
  }

  /** A successful setup fails at no character. */
  lemma PackSuccessNoFailure(face: FontFace, chars: string, width: int, height: int, start: PackState)
    requires Pack(face, chars, width, height, start).Ok?
    ensures forall k | 0 <= k < |chars| :: !FailsAt(face, chars, k, width, height, start)
  {
    forall k | 0 <= k < |chars|
      ensures !FailsAt(face, chars, k, width, height, start)
    {
      PackPrefix(face, chars, k + 1, width, height, start);
      assert chars[..k + 1][..k] == chars[..k] && chars[..k + 1][k] == chars[k];
    }
  }

  lemma PackFailure(face: FontFace, chars: string, width: int, height: int, start: PackState)
    ensures Pack(face, chars, width, height, start).Err? <==>
      exists k | 0 <= k < |chars| :: FailsAt(face, chars, k, width, height, start)
    ensures Pack(face, chars, width, height, start).Err? ==>
      exists k | 0 <= k < |chars| :: FailsAt(face, chars, k, width, height, start) &&
        Pack(face, chars, width, height, start).error ==
        Step(face, width, height, Pack(face, chars[..k], width, height, start).value, chars[k]).error
  {
    if Pack(face, chars, width, height, start).Err? {
      PackFailureWitness(face, chars, width, height, start);
    } else {
      PackSuccessNoFailure(face, chars, width, height, start);
    }
  }

  /** A character the face cannot render makes the whole setup fail. */
  lemma {:induction false} PackLoadFailure(face: FontFace, chars: string, width: int, height: int, start: PackState, k: nat)
    requires k < |chars| && face(chars[k]).None?
    ensures Pack(face, chars, width, height, start).Err?
    decreases |chars|
  {
    var n := |chars| - 1;
    if k < n {
      assert chars[..n][k] == chars[k];
      PackLoadFailure(face, chars[..n], width, height, start, k);
    }
  }

  // ---------------------------------------------------------------------------
  // Worked layouts: three 4-by-4 glyphs "A", "B", "C" with a 5-pixel advance
  // ---------------------------------------------------------------------------

  function SquareFace(c: char): Option<Metrics>
  {
    if c in "ABC" then Some(Metrics(4, 4, 0, 4, 320, 0)) else None
  }

  lemma SquareFaceRenders()
    ensures SquareFace('A') == SquareFace('B') == SquareFace('C') == Some(Metrics(4, 4, 0, 4, 320, 0))
  {
  }

  /**
   * 9 pixels wide: "A" at (0,0); "B" at (5,0) after the gutter, ending exactly
   * at the right edge and so staying on the row; "C" offered at x = 10 wraps
   * to (0,4).
   */
  lemma ThreeSquaresFit()
    ensures Pack(SquareFace, "ABC", 9, 8, Initial).Ok?
    ensures Pack(SquareFace, "ABC", 9, 8, Initial).value.uploads ==
      [Rect(0, 0, 4, 4), Rect(5, 0, 4, 4), Rect(0, 4, 4, 4)]
  {
    assert "ABC"[..2] == "AB" && "AB"[..1] == "A" && "A"[..0] == "";
    SquareFaceRenders();
    var a := Pack(SquareFace, "A", 9, 8, Initial);
    assert a.Ok? && a.value.x == 5 && a.value.y == 0 && a.value.maxHeight == 4 && a.value.uploads == [Rect(0, 0, 4, 4)];
    var ab := Pack(SquareFace, "AB", 9, 8, Initial);
    assert ab == Step(SquareFace, 9, 8, a.value, 'B');
    assert ab.Ok? && ab.value.x == 10 && ab.value.y == 0 && ab.value.maxHeight == 4;
    assert ab.value.uploads == [Rect(0, 0, 4, 4), Rect(5, 0, 4, 4)];
    assert Pack(SquareFace, "ABC", 9, 8, Initial) == Step(SquareFace, 9, 8, ab.value, 'C');
  }

  /** Only 4 pixels high: the wrapped "C" would need rows 4 to 8, so the setup fails. */
  lemma ThreeSquaresOverflow()
    ensures Pack(SquareFace, "ABC", 9, 4, Initial) == Err(AtlasFull)
  {
    assert "ABC"[..2] == "AB" && "AB"[..1] == "A" && "A"[..0] == "";
    SquareFaceRenders();
    var a := Pack(SquareFace, "A", 9, 4, Initial);
    assert a.Ok? && a.value.x == 5 && a.value.y == 0 && a.value.maxHeight == 4;
    var ab := Pack(SquareFace, "AB", 9, 4, Initial);
    assert ab == Step(SquareFace, 9, 4, a.value, 'B');
    assert ab.Ok? && ab.value.x == 10 && ab.value.y == 0 && ab.value.maxHeight == 4;
    assert Pack(SquareFace, "ABC", 9, 4, Initial) == Step(SquareFace, 9, 4, ab.value, 'C');
  }

  /**
   * 8 pixels wide and 8 high: "B" offered at x = 5 would end at 9, so it
   * wraps to (0,4), and "C" then wraps to y = 8 and does not fit.
   */
  lemma ThreeSquaresTooNarrow()
    ensures Pack(SquareFace, "AB", 8, 8, Initial).Ok?
    ensures Pack(SquareFace, "AB", 8, 8, Initial).value.uploads == [Rect(0, 0, 4, 4), Rect(0, 4, 4, 4)]
    ensures Pack(SquareFace, "ABC", 8, 8, Initial) == Err(AtlasFull)
  {
  }

  /** 8 pixels wide and only 4 high: "B" wraps to y = 4 and already does not fit, so "C" is never tried. */
  lemma ThreeSquaresTooShort()
    ensures Pack(SquareFace, "AB", 8, 4, Initial) == Err(AtlasFull)
    ensures Pack(SquareFace, "ABC", 8, 4, Initial) == Err(AtlasFull)
  {
  }
}
