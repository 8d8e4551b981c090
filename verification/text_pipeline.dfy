/**
 The text pipeline: keep the single recognised characters the embedded single-stroke font
 can draw, put them in serpentine reading order, and draw every stroke of every character
 scaled into the character's bounding box, in millimetres on the plotter bed.
 */
module TextPipeline {
  import opened Wrappers
  import opened GCode
  import opened PyNum
  import opened TextOrder
  import Config

  // ---------------------------------------------------------------------------
  // The embedded font
  // ---------------------------------------------------------------------------

  type Point = (real, real)

  /** The single-stroke font: per character, its strokes, each a polyline in a box whose
      corners are about (-0.5, -0.8) and (0.5, 0.9). */
  function Font(): map<char, seq<seq<Point>>>
  {
    map[
      'A' := [[(-0.5, -0.8), (0.0, 0.9)], [(0.0, 0.9), (0.5, -0.8)], [(-0.3, 0.1), (0.3, 0.1)]],
      'B' := [[(-0.5, -0.8), (-0.5, 0.9)], [(-0.5, 0.9), (0.3, 0.7)], [(0.3, 0.7), (0.3, 0.1)], [(-0.5, 0.1)],
              [(-0.5, 0.1), (0.4, -0.1)], [(0.4, -0.1), (0.4, -0.6)], [(-0.5, -0.8)]],
      'C' := [[(0.5, 0.6), (0.2, 0.9)], [(0.2, 0.9), (-0.5, 0.6)], [(-0.5, 0.6), (-0.5, -0.5)],
              [(-0.5, -0.5), (0.2, -0.8)], [(0.2, -0.8), (0.5, -0.5)]],
      'D' := [[(-0.5, -0.8), (-0.5, 0.9)], [(-0.5, 0.9), (0.3, 0.6)], [(0.3, 0.6), (0.3, -0.5)], [(-0.5, -0.8)]],
      'E' := [[(0.5, 0.9), (-0.5, 0.9)], [(-0.5, 0.9), (-0.5, -0.8)], [(0.5, -0.8)], [(-0.5, 0.1), (0.2, 0.1)]],
      'H' := [[(-0.5, 0.9), (-0.5, -0.8)], [(0.5, 0.9), (0.5, -0.8)], [(-0.5, 0.1), (0.5, 0.1)]],
      'L' := [[(-0.5, 0.9), (-0.5, -0.8)], [(-0.5, -0.8), (0.5, -0.8)]],
      'O' := [[(-0.5, 0.0), (-0.3, 0.9)], [(0.3, 0.9)], [(0.5, 0.0)], [(0.3, -0.8)], [(-0.3, -0.8)], [(-0.5, 0.0)]],
      'W' := [[(-0.6, 0.9), (-0.3, -0.8)], [(-0.3, -0.8), (0.0, 0.5)], [(0.0, 0.5), (0.3, -0.8)], [(0.3, -0.8), (0.6, 0.9)]],
      ' ' := []
    ]
  }

  /** The characters the font can draw: nine capitals and the space. */
  lemma FontCharacters()
    ensures Font().Keys == {'A', 'B', 'C', 'D', 'E', 'H', 'L', 'O', 'W', ' '}
    ensures forall c :: c in Font() ==> (Font()[c] == [] <==> c == ' ')
  {
  }

  /** Every stroke of every character has a first point. */
  predicate WellFormedFont(font: map<char, seq<seq<Point>>>)
  {
    forall c :: c in font ==> StrokesNonEmpty(font[c])
  }

  predicate StrokesNonEmpty(strokes: seq<seq<Point>>)
  {
    forall k :: 0 <= k < |strokes| ==> |strokes[k]| >= 1
  }

  /** Every stroke of the embedded font has a first point, so taking it never fails. */
  lemma FontStrokesNonEmpty()
    ensures WellFormedFont(Font())
  {
  }

  // ---------------------------------------------------------------------------
  // Characters from the recogniser's output
  // ---------------------------------------------------------------------------

  /** One row of the recogniser's word/character table: text, confidence and box. */
  datatype OcrEntry = OcrEntry(text: string, conf: real, left: int, top: int, width: int, height: int)

  /** `str.upper()` on ASCII letters; every other character is left alone. */
  function Upper(c: char): (u: char)
  {
    if 'a' <= c <= 'z' then (c as int - 32) as char else c
  }

  /** An entry is kept when its truncated confidence is positive, its text is one character,
      and that character, uppercased, is in the font. */
  predicate Kept(e: OcrEntry)
  {
    Trunc(e.conf) > 0 && |e.text| == 1 && Upper(e.text[0]) in Font()
  }

  function GlyphOf(e: OcrEntry): Glyph
    requires |e.text| == 1
  {
    Glyph(Upper(e.text[0]), e.left, e.top, e.width, e.height)
  }

  /** The kept entries as characters, in table order. */
  function Characters(entries: seq<OcrEntry>): (chars: seq<Glyph>)
    ensures forall g :: g in chars ==> g.ch in Font()
    decreases |entries|
  {
    if entries == [] then []
    else (if Kept(entries[0]) then [GlyphOf(entries[0])] else []) + Characters(entries[1..])
  }

  /** A character is produced exactly for a kept entry, and the filter works row by row:
      the characters of two tables one after the other are those of each, in order. */
  lemma {:induction false} CharactersAreKeptEntries(entries: seq<OcrEntry>)
    ensures forall g :: g in Characters(entries) <==> exists i :: 0 <= i < |entries| && Kept(entries[i]) && GlyphOf(entries[i]) == g
    ensures |Characters(entries)| <= |entries|
    decreases |entries|
  {
    if entries != [] {
      CharactersAreKeptEntries(entries[1..]);
      forall g ensures g in Characters(entries) <==> exists i :: 0 <= i < |entries| && Kept(entries[i]) && GlyphOf(entries[i]) == g
      {
        if exists i :: 0 <= i < |entries| && Kept(entries[i]) && GlyphOf(entries[i]) == g {
          var i :| 0 <= i < |entries| && Kept(entries[i]) && GlyphOf(entries[i]) == g;
          if i > 0 {
            assert entries[1..][i - 1] == entries[i];
          }
        }
        if g in Characters(entries[1..]) {
          var i :| 0 <= i < |entries[1..]| && Kept(entries[1..][i]) && GlyphOf(entries[1..][i]) == g;
          assert entries[i + 1] == entries[1..][i];
        }
      }
    }
  }

  lemma {:induction false} CharactersAppend(a: seq<OcrEntry>, b: seq<OcrEntry>)
    ensures Characters(a + b) == Characters(a) + Characters(b)
    decreases |a|
  {
    if a == [] {
      assert a + b == b;
    } else {
      assert (a + b)[1..] == a[1..] + b;
      CharactersAppend(a[1..], b);
    }
  }

  /** `ocr_to_characters` as written: one pass over the table, keeping each entry whose
      confidence, length and uppercased character pass. */
  method OcrToCharacters(entries: seq<OcrEntry>) returns (chars: seq<Glyph>)
    ensures chars == Characters(entries)
  {
    chars := [];
    var i := 0;
    while i < |entries|
      invariant i <= |entries|
      invariant chars == Characters(entries[..i])
    {
      var e := entries[i];
      CharactersStep(entries, i);
      if Trunc(e.conf) > 0 && |e.text| == 1 {
        var ch := Upper(e.text[0]);
        if ch in Font() {
          chars := chars + [Glyph(ch, e.left, e.top, e.width, e.height)];
        }
      }
      i := i + 1;
    }
    assert entries[..i] == entries;
  }

  /** The characters of one more row of the table. */
  lemma CharactersStep(entries: seq<OcrEntry>, i: nat)
    requires i < |entries|
    ensures Characters(entries[..i + 1])
         == Characters(entries[..i]) + (if Kept(entries[i]) then [GlyphOf(entries[i])] else [])
  {
    var e := entries[i];
    assert entries[..i + 1] == entries[..i] + [e];
    CharactersAppend(entries[..i], [e]);
    assert [e][1..] == [];
  }

  // ---------------------------------------------------------------------------
  // From font coordinates to the plotter bed
  // ---------------------------------------------------------------------------

  /** Horizontal pixel of font x coordinate nx in the character's box. */
  function PixelX(g: Glyph, nx: real): real
  {
    g.x as real + (nx + 0.5) * g.w as real
  }

  /** Vertical pixel of font y coordinate ny: the font's y grows upwards, the image's downwards. */
  function PixelY(g: Glyph, ny: real): real
  {
    g.y as real + (-ny + 0.9) * (g.h as real / 1.7)
  }

  /** A font point of character g, in millimetres: pixels divided by the processing
      resolution, and y measured up from the bottom of the bed. */
  function ToMm(g: Glyph, p: Point): Point
  {
    (PixelX(g, p.0) / Config.ProcessingStepsPerMm(),
     Config.PlotterHeightMm - PixelY(g, p.1) / Config.ProcessingStepsPerMm())
  }

  /** The font box lands on the character's bounding box: font x -0.5 and 0.5 are its left
      and right edges, font y 0.9 and -0.8 its top and bottom, and larger font coordinates
      land further right and further up. */
  lemma FontBoxIsBoundingBox(g: Glyph, a: real, b: real)
    ensures PixelX(g, -0.5) == g.x as real && PixelX(g, 0.5) == (g.x + g.w) as real
    ensures PixelY(g, 0.9) == g.y as real && PixelY(g, -0.8) == (g.y + g.h) as real
    ensures g.w >= 0 && a <= b ==> PixelX(g, a) <= PixelX(g, b)
    ensures g.h >= 0 && a <= b ==> PixelY(g, a) >= PixelY(g, b)
  {
    if g.w >= 0 && a <= b {
      assert (b - a) * g.w as real >= 0.0;
    }
    if g.h >= 0 && a <= b {
      assert (b - a) * (g.h as real / 1.7) >= 0.0;
    }
  }

  /** In millimetres, the box's top-left corner is its left edge and the bed height less its top. */
  lemma TopLeftCorner(g: Glyph)
    ensures ToMm(g, (-0.5, 0.9))
         == (g.x as real / Config.ProcessingStepsPerMm(),
             Config.PlotterHeightMm - g.y as real / Config.ProcessingStepsPerMm())
  {
    FontBoxIsBoundingBox(g, 0.0, 0.0);
  }

  /** A stroke of character g as drawn: each of its points mapped into the box. */
  function MapStroke(g: Glyph, stroke: seq<Point>): (mm: seq<Point>)
    ensures |mm| == |stroke|
  {
    seq(|stroke|, k requires 0 <= k < |stroke| => ToMm(g, stroke[k]))
  }

  // ---------------------------------------------------------------------------
  // The emitted program
  // ---------------------------------------------------------------------------

  /** Drawing moves through the points, at feed 2000. */
  function DrawMoves(g: Glyph, points: seq<Point>): seq<Command<real>>
    decreases |points|
  {
    if points == [] then []
    else [Move(ToMm(g, points[0]).0, ToMm(g, points[0]).1, Some(2000))] + DrawMoves(g, points[1..])
  }

  /** One stroke: travel to its first point at feed 5000, pen down, draw through the rest,
      pen up. */
  function StrokeCommands(g: Glyph, stroke: seq<Point>): seq<Command<real>>
    requires |stroke| >= 1
  {
    [Move(ToMm(g, stroke[0]).0, ToMm(g, stroke[0]).1, Some(5000)), PenDown]
      + DrawMoves(g, stroke[1..]) + [PenUp]
  }

  function StrokesCommands(g: Glyph, strokes: seq<seq<Point>>): seq<Command<real>>
    requires StrokesNonEmpty(strokes)
    decreases |strokes|
  {
    if strokes == [] then [] else StrokeCommands(g, strokes[0]) + StrokesCommands(g, strokes[1..])
  }

  /** Every character has an entry in the font. */
  predicate AllDrawable(font: map<char, seq<seq<Point>>>, chars: seq<Glyph>)
  {
    forall i :: 0 <= i < |chars| ==> chars[i].ch in font
  }

  /** The commands of characters in order, each drawn with its strokes in `font`. */
  function GlyphsCommands(font: map<char, seq<seq<Point>>>, chars: seq<Glyph>): seq<Command<real>>
    requires WellFormedFont(font) && AllDrawable(font, chars)
    decreases |chars|
  {
    if chars == [] then []
    else StrokesCommands(chars[0], font[chars[0].ch]) + GlyphsCommands(font, chars[1..])
  }

  const PipelineComment := "Generated with Text Pipeline (OCR + Single-Stroke)"

  function TextHeader(): seq<Command<real>>
  {
    [Comment(PipelineComment), PenUp, Move(0.0, 0.0, Some(5000))]
  }

  /** What the pipeline emits for the table `entries`, grouping characters into lines by `key`. */
  function TextProgram(entries: seq<OcrEntry>, key: Glyph -> int): seq<Command<real>>
  {
    var chars := Characters(entries);
    if chars == [] then [Move(0.0, 0.0, None)]
    else
      SerpentineDrawable(chars, key);
      FontStrokesNonEmpty();
      TextHeader() + GlyphsCommands(Font(), Serpentine(chars, key)) + [ReturnHome]
  }

  lemma SerpentineDrawable(chars: seq<Glyph>, key: Glyph -> int)
    requires forall g :: g in chars ==> g.ch in Font()
    ensures AllDrawable(Font(), Serpentine(chars, key))
  {
    var s := Serpentine(chars, key);
    SerpentineIsPermutation(chars, key);
    forall i | 0 <= i < |s| ensures s[i].ch in Font()
    {
      assert s[i] in multiset(chars);
    }
  }

  // ---------------------------------------------------------------------------
  // The generator as written
  // ---------------------------------------------------------------------------

  /** `generate_text_gcode` as written: recognised characters, or the single move home when
      there are none; otherwise the header, then per character (in serpentine order) its
      strokes, and the return home. */
  method GenerateTextGcode(entries: seq<OcrEntry>, key: Glyph -> int) returns (gcode: seq<Command<real>>)
    ensures gcode == TextProgram(entries, key)
  {
    var characters := OcrToCharacters(entries);
    if |characters| == 0 {
      return [Move(0.0, 0.0, None)];
    }
    var sortedChars := Serpentine(characters, key);
    SerpentineDrawable(characters, key);
    FontStrokesNonEmpty();
    var font := Font();
    gcode := TextHeader();
    ghost var target := TextHeader() + GlyphsCommands(font, sortedChars);
    var i := 0;
    while i < |sortedChars|
      invariant i <= |sortedChars|
      invariant gcode + GlyphsCommands(font, sortedChars[i..]) == target
    {
      ghost var before := gcode;
      gcode := EmitCharacter(gcode, font[sortedChars[i].ch], sortedChars[i]);
      GlyphStep(font, sortedChars, i, before, gcode, target);
      i := i + 1;
    }
    gcode := gcode + [ReturnHome];
  }

  /** The loop over one character's strokes. */
  method EmitCharacter(gcode: seq<Command<real>>, charPath: seq<seq<Point>>, charData: Glyph) returns (out: seq<Command<real>>)
    requires StrokesNonEmpty(charPath)
    ensures out == gcode + StrokesCommands(charData, charPath)
  {
    out := gcode;
    ghost var target := gcode + StrokesCommands(charData, charPath);
    var k := 0;
    while k < |charPath|
      invariant k <= |charPath|
      invariant out + StrokesCommands(charData, charPath[k..]) == target
    {
      ghost var before := out;
      out := EmitStroke(out, charData, charPath[k]);
      StrokeStep(charData, charPath, k, before, out, target);
      k := k + 1;
    }
  }

  /** One stroke: the travel move to its first point, pen down, a drawing move per further
      point, pen up. */
  method EmitStroke(gcode: seq<Command<real>>, charData: Glyph, stroke: seq<Point>) returns (out: seq<Command<real>>)
    requires |stroke| >= 1
    ensures out == gcode + StrokeCommands(charData, stroke)
  {
    var start := ToMm(charData, stroke[0]);
    out := gcode + [Move(start.0, start.1, Some(5000))];
    out := out + [PenDown];
    ghost var drawStart := out;
    var m := 1;
    while m < |stroke|
      invariant 1 <= m <= |stroke|
      invariant out + DrawMoves(charData, stroke[m..]) == drawStart + DrawMoves(charData, stroke[1..])
    {
      var p := ToMm(charData, stroke[m]);
      ghost var before := out;
      out := out + [Move(p.0, p.1, Some(2000))];
      DrawMovesStep(charData, stroke, m, before, out, drawStart + DrawMoves(charData, stroke[1..]));
      m := m + 1;
    }
    assert stroke[m..] == [];
    ghost var travel := [Move(start.0, start.1, Some(5000)), PenDown];
    ghost var draw := DrawMoves(charData, stroke[1..]);
    assert drawStart == gcode + travel;
    assert out == gcode + travel + draw;
    out := out + [PenUp];
    assert gcode + (travel + draw + [PenUp]) == gcode + travel + draw + [PenUp];
  }

  lemma DrawMovesStep(g: Glyph, stroke: seq<Point>, m: nat, before: seq<Command<real>>,
                      after: seq<Command<real>>, target: seq<Command<real>>)
    requires 1 <= m < |stroke|
    requires before + DrawMoves(g, stroke[m..]) == target
    requires after == before + [Move(ToMm(g, stroke[m]).0, ToMm(g, stroke[m]).1, Some(2000))]
    ensures after + DrawMoves(g, stroke[m + 1..]) == target
  {
    assert stroke[m..][1..] == stroke[m + 1..];
  }

  lemma StrokeStep(g: Glyph, strokes: seq<seq<Point>>, k: nat, before: seq<Command<real>>,
                   after: seq<Command<real>>, target: seq<Command<real>>)
    requires StrokesNonEmpty(strokes) && k < |strokes|
    requires before + StrokesCommands(g, strokes[k..]) == target
    requires after == before + StrokeCommands(g, strokes[k])
    ensures after + StrokesCommands(g, strokes[k + 1..]) == target
  {
    assert strokes[k..][1..] == strokes[k + 1..];
  }

  lemma GlyphStep(font: map<char, seq<seq<Point>>>, chars: seq<Glyph>, i: nat, before: seq<Command<real>>,
                  after: seq<Command<real>>, target: seq<Command<real>>)
    requires WellFormedFont(font) && AllDrawable(font, chars) && i < |chars|
    requires before + GlyphsCommands(font, chars[i..]) == target
    requires after == before + StrokesCommands(chars[i], font[chars[i].ch])
    ensures after + GlyphsCommands(font, chars[i + 1..]) == target
  {
    assert chars[i..][1..] == chars[i + 1..];
  }
}
