/**
 What the text program draws. Traced with the shared pen semantics, every stroke of every
 character is drawn as its font polyline mapped point by point into the character's box,
 characters in serpentine order; the pen is lowered once per stroke, pen commands
 alternate, and the pen is up after every character.
 */
module TextPlot {
  import opened Wrappers
  import opened GCode
  import opened TextOrder
  import opened TextPipeline

  /** The polylines of a character's strokes, mapped into its box. */
  function MappedStrokes(g: Glyph, strokes: seq<seq<Point>>): seq<seq<Point>>
    decreases |strokes|
  {
    if strokes == [] then [] else [MapStroke(g, strokes[0])] + MappedStrokes(g, strokes[1..])
  }

  /** The polylines of all characters, in order. */
  function Drawing(font: map<char, seq<seq<Point>>>, chars: seq<Glyph>): seq<seq<Point>>
    requires AllDrawable(font, chars)
    decreases |chars|
  {
    if chars == [] then [] else MappedStrokes(chars[0], font[chars[0].ch]) + Drawing(font, chars[1..])
  }

  /** Number of strokes of the characters. */
  function StrokeCount(font: map<char, seq<seq<Point>>>, chars: seq<Glyph>): nat
    requires AllDrawable(font, chars)
    decreases |chars|
  {
    if chars == [] then 0 else |font[chars[0].ch]| + StrokeCount(font, chars[1..])
  }

  // ---------------------------------------------------------------------------
  // Tracing
  // ---------------------------------------------------------------------------

  /** With the pen down, drawing moves extend the open polyline by the mapped points. */
  lemma {:induction false} TraceDrawMoves(g: Glyph, points: seq<Point>, t: Tracer<real>)
    requires t.down
    ensures Trace(DrawMoves(g, points), t, 0.0).down
    ensures Trace(DrawMoves(g, points), t, 0.0).open == t.open + MapStroke(g, points)
    ensures Trace(DrawMoves(g, points), t, 0.0).drawn == t.drawn
    decreases |points|
  {
    if points == [] {
      assert MapStroke(g, points) == [];
    } else {
      var p := ToMm(g, points[0]);
      var m: Command<real> := Move(p.0, p.1, Some(2000));
      var t1 := TraceStep(t, m, 0.0);
      assert DrawMoves(g, points)[1..] == DrawMoves(g, points[1..]);
      TraceDrawMoves(g, points[1..], t1);
      assert MapStroke(g, points) == [p] + MapStroke(g, points[1..]);
    }
  }

  /** A stroke, started with the pen up and nothing open, draws its mapped polyline. */
  lemma TraceStroke(g: Glyph, stroke: seq<Point>, t: Tracer<real>)
    requires |stroke| >= 1 && !t.down && t.open == []
    ensures !Trace(StrokeCommands(g, stroke), t, 0.0).down
    ensures Trace(StrokeCommands(g, stroke), t, 0.0).open == []
    ensures Trace(StrokeCommands(g, stroke), t, 0.0).drawn == t.drawn + [MapStroke(g, stroke)]
  {
    var start := ToMm(g, stroke[0]);
    var travel: seq<Command<real>> := [Move(start.0, start.1, Some(5000)), PenDown];
    var draw := DrawMoves(g, stroke[1..]);
    var lift: seq<Command<real>> := [PenUp];
    assert StrokeCommands(g, stroke) == travel + (draw + lift);
    TraceAppend(travel, draw + lift, t, 0.0);
    TraceAppend(draw, lift, Trace(travel, t, 0.0), 0.0);
    var t1 := t.(pos := start);
    var t2 := t.(pos := start, down := true, open := [start]);
    assert travel[1..] == [PenDown];
    assert travel[1..][1..] == [];
    assert TraceStep(t, travel[0], 0.0) == t1;
    assert TraceStep(t1, PenDown, 0.0) == t2;
    assert Trace(travel[1..], t1, 0.0) == t2;
    assert Trace(travel, t, 0.0) == t2;
    TraceDrawMoves(g, stroke[1..], t2);
    assert MapStroke(g, stroke) == [start] + MapStroke(g, stroke[1..]);
  }

  lemma {:induction false} TraceStrokes(g: Glyph, strokes: seq<seq<Point>>, t: Tracer<real>)
    requires StrokesNonEmpty(strokes) && !t.down && t.open == []
    ensures !Trace(StrokesCommands(g, strokes), t, 0.0).down
    ensures Trace(StrokesCommands(g, strokes), t, 0.0).open == []
    ensures Trace(StrokesCommands(g, strokes), t, 0.0).drawn == t.drawn + MappedStrokes(g, strokes)
    decreases |strokes|
  {
    if strokes != [] {
      var first := StrokeCommands(g, strokes[0]);
      TraceAppend(first, StrokesCommands(g, strokes[1..]), t, 0.0);
      TraceStroke(g, strokes[0], t);
      TraceStrokes(g, strokes[1..], Trace(first, t, 0.0));
    }
  }

  lemma {:induction false} TraceGlyphs(font: map<char, seq<seq<Point>>>, chars: seq<Glyph>, t: Tracer<real>)
    requires WellFormedFont(font) && AllDrawable(font, chars) && !t.down && t.open == []
    ensures !Trace(GlyphsCommands(font, chars), t, 0.0).down
    ensures Trace(GlyphsCommands(font, chars), t, 0.0).open == []
    ensures Trace(GlyphsCommands(font, chars), t, 0.0).drawn == t.drawn + Drawing(font, chars)
    decreases |chars|
  {
    if chars != [] {
      var strokes := font[chars[0].ch];
      var first := StrokesCommands(chars[0], strokes);
      var rest := GlyphsCommands(font, chars[1..]);
      var mapped := MappedStrokes(chars[0], strokes);
      assert GlyphsCommands(font, chars) == first + rest;
      assert Drawing(font, chars) == mapped + Drawing(font, chars[1..]);
      TraceStrokes(chars[0], strokes, t);
      TraceGlyphs(font, chars[1..], Trace(first, t, 0.0));
      TraceSequence(first, rest, t, 0.0, mapped, Drawing(font, chars[1..]));
    }
  }

  // ---------------------------------------------------------------------------
  // Pen discipline
  // ---------------------------------------------------------------------------

  lemma {:induction false} DrawMovesHaveNoPen(g: Glyph, points: seq<Point>, down: bool)
    ensures Alternates(DrawMoves(g, points) + [PenUp], true)
    ensures CountPenDowns(DrawMoves(g, points)) == 0
    decreases |points|
  {
    if points != [] {
      DrawMovesHaveNoPen(g, points[1..], down);
      assert (DrawMoves(g, points) + [PenUp])[1..] == DrawMoves(g, points[1..]) + [PenUp];
    } else {
      assert (DrawMoves(g, points) + [PenUp])[1..] == [];
    }
  }

  lemma StrokeAlternates(g: Glyph, stroke: seq<Point>)
    requires |stroke| >= 1
    ensures Alternates(StrokeCommands(g, stroke), false)
    ensures CountPenDowns(StrokeCommands(g, stroke)) == 1
  {
    DrawMovesHaveNoPen(g, stroke[1..], true);
    BracketedDraw(Move(ToMm(g, stroke[0]).0, ToMm(g, stroke[0]).1, Some(5000)), DrawMoves(g, stroke[1..]));
  }

  /** A travel move, pen down, pen-free drawing moves and pen up: one pen-down, alternating. */
  lemma BracketedDraw(travel: Command<real>, draw: seq<Command<real>>)
    requires travel.Move? && Alternates(draw + [PenUp], true) && CountPenDowns(draw) == 0
    ensures Alternates([travel, PenDown] + draw + [PenUp], false)
    ensures CountPenDowns([travel, PenDown] + draw + [PenUp]) == 1
  {
    var s := [travel, PenDown] + draw + [PenUp];
    assert s[1..][1..] == draw + [PenUp];
    assert s[1..] == [PenDown] + (draw + [PenUp]);
    var lift: seq<Command<real>> := [PenUp];
    CountPenDownsAppend(draw, lift);
    assert CountPenDowns(lift) == 0;
  }

  lemma {:induction false} StrokesAlternate(g: Glyph, strokes: seq<seq<Point>>)
    requires StrokesNonEmpty(strokes)
    ensures Alternates(StrokesCommands(g, strokes), false)
    ensures CountPenDowns(StrokesCommands(g, strokes)) == |strokes|
    decreases |strokes|
  {
    if strokes != [] {
      StrokeAlternates(g, strokes[0]);
      StrokesAlternate(g, strokes[1..]);
      AlternatesAppend(StrokeCommands(g, strokes[0]), StrokesCommands(g, strokes[1..]), false);
      CountPenDownsAppend(StrokeCommands(g, strokes[0]), StrokesCommands(g, strokes[1..]));
    }
  }

  lemma {:induction false} GlyphsAlternate(font: map<char, seq<seq<Point>>>, chars: seq<Glyph>)
    requires WellFormedFont(font) && AllDrawable(font, chars)
    ensures Alternates(GlyphsCommands(font, chars), false)
    ensures CountPenDowns(GlyphsCommands(font, chars)) == StrokeCount(font, chars)
    decreases |chars|
  {
    if chars != [] {
      var strokes := font[chars[0].ch];
      var first := StrokesCommands(chars[0], strokes);
      var rest := GlyphsCommands(font, chars[1..]);
      assert GlyphsCommands(font, chars) == first + rest;
      StrokesAlternate(chars[0], strokes);
      GlyphsAlternate(font, chars[1..]);
      AlternatesAppend(first, rest, false);
      CountPenDownsAppend(first, rest);
    }
  }

  /** With the embedded font, a character emits nothing exactly when it is the space. */
  lemma SpaceDrawsNothing(g: Glyph)
    requires g.ch in Font()
    ensures StrokesNonEmpty(Font()[g.ch])
    ensures StrokesCommands(g, Font()[g.ch]) == [] <==> g.ch == ' '
  {
    FontCharacters();
    FontStrokesNonEmpty();
    StrokesAlternate(g, Font()[g.ch]);
  }

  // ---------------------------------------------------------------------------
  // The program
  // ---------------------------------------------------------------------------

  lemma TextHeaderShape()
    ensures Trace(TextHeader(), AtRest(0.0), 0.0) == AtRest(0.0)
    ensures CountPenDowns(TextHeader()) == 0
  {
    var h := TextHeader();
    assert h[1..] == [PenUp, Move(0.0, 0.0, Some(5000))];
    assert h[1..][1..] == [Move(0.0, 0.0, Some(5000))];
    assert h[1..][1..][1..] == [];
    assert CountPenDowns(h[1..][1..]) == 0;
    assert CountPenDowns(h[1..]) == 0;
    assert Trace(h[1..][1..], AtRest(0.0), 0.0) == AtRest(0.0);
    assert Trace(h[1..], AtRest(0.0), 0.0) == AtRest(0.0);
  }

  /** Wrapping an alternating body in the header and the return home keeps it alternating
      after the header's lift and adds no pen-down. */
  lemma TextPenDiscipline(body: seq<Command<real>>)
    requires Alternates(body, false)
    ensures Alternates((TextHeader() + body + [ReturnHome])[2..], false)
    ensures CountPenDowns(TextHeader() + body + [ReturnHome]) == CountPenDowns(body)
  {
    var h := TextHeader();
    var home: seq<Command<real>> := [ReturnHome];
    var origin: seq<Command<real>> := [Move(0.0, 0.0, Some(5000))];
    assert (h + body + home)[2..] == origin + (body + home);
    assert Alternates(home, false);
    assert Alternates(origin, false);
    AlternatesAppend(body, home, false);
    AlternatesAppend(origin, body + home, false);
    CountPenDownsAppend(h, body);
    CountPenDownsAppend(h + body, home);
    TextHeaderShape();
    assert CountPenDowns(home) == 0;
  }

  /** Header, characters and return home, traced from rest: the pen ends up at the origin,
      the drawing is exactly the mapped strokes in order, and there is one pen-down per
      stroke. */
  lemma GlyphProgramDraws(font: map<char, seq<seq<Point>>>, order: seq<Glyph>)
    requires WellFormedFont(font) && AllDrawable(font, order)
    ensures var prog := TextHeader() + GlyphsCommands(font, order) + [ReturnHome];
      Trace(prog, AtRest(0.0), 0.0) == Tracer((0.0, 0.0), false, [], Drawing(font, order))
      && Alternates(prog[2..], false)
      && CountPenDowns(prog) == StrokeCount(font, order)
  {
    var body := GlyphsCommands(font, order);
    var h := TextHeader();
    var home: seq<Command<real>> := [ReturnHome];
    TraceAppend(h + body, home, AtRest(0.0), 0.0);
    TraceAppend(h, body, AtRest(0.0), 0.0);
    TextHeaderShape();
    TraceGlyphs(font, order, AtRest(0.0));
    GlyphsAlternate(font, order);
    TextPenDiscipline(body);
  }

  /** The program is the lone move home exactly when no OCR entry is kept. */
  lemma TextProgramEmptyIff(entries: seq<OcrEntry>, key: Glyph -> int)
    ensures (forall i :: 0 <= i < |entries| ==> !Kept(entries[i])) <==> TextProgram(entries, key) == [Move(0.0, 0.0, None)]
  {
    var chars := Characters(entries);
    CharactersAreKeptEntries(entries);
    if chars != [] {
      assert chars[0] in chars;
      assert |TextProgram(entries, key)| >= 4;
    } else {
      assert forall i :: 0 <= i < |entries| && Kept(entries[i]) ==> GlyphOf(entries[i]) in chars;
    }
  }

  /** With characters, the program is the header, the characters in serpentine order and
      the return home. */
  lemma TextProgramShape(entries: seq<OcrEntry>, key: Glyph -> int)
    requires Characters(entries) != []
    ensures var order := Serpentine(Characters(entries), key);
      WellFormedFont(Font()) && AllDrawable(Font(), order)
      && TextProgram(entries, key) == TextHeader() + GlyphsCommands(Font(), order) + [ReturnHome]
  {
    FontStrokesNonEmpty();
    SerpentineDrawable(Characters(entries), key);
  }

  /** With no kept entry the program is the single move home; otherwise, from rest, it ends
      at the origin with the pen up, pen commands alternate after the header's initial lift,
      it lowers the pen once per stroke, and it draws exactly the mapped strokes of the
      characters in serpentine order. */
  lemma TextProgramDraws(entries: seq<OcrEntry>, key: Glyph -> int)
    ensures (forall i :: 0 <= i < |entries| ==> !Kept(entries[i])) <==> TextProgram(entries, key) == [Move(0.0, 0.0, None)]
    ensures var chars := Characters(entries);
      chars != [] ==>
        var order := Serpentine(chars, key);
        var prog := TextProgram(entries, key);
        WellFormedFont(Font()) && AllDrawable(Font(), order)
        && Trace(prog, AtRest(0.0), 0.0) == Tracer((0.0, 0.0), false, [], Drawing(Font(), order))
        && Alternates(prog[2..], false)
        && CountPenDowns(prog) == StrokeCount(Font(), order)
  {
    TextProgramEmptyIff(entries, key);
    var chars := Characters(entries);
    if chars != [] {
      TextProgramShape(entries, key);
      GlyphProgramDraws(Font(), Serpentine(chars, key));
    }
  }
}
