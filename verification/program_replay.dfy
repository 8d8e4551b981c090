/**
 The two generators' programs, written out, loaded by the simulator and played from a reset
 that lifts the pen: what appears on the canvas is what the generator set out to draw. The
 reset as written keeps the pen, so the same holds through it whenever the pen is already up.
 */
module ProgramReplay {
  import opened Wrappers
  import opened GCode
  import opened GcodeParser
  import opened Playback
  import opened Replay
  import Raster
  import RasterPlot
  import TextOrder
  import TextPipeline
  import TextPlot

  /** The raster program for a valid image, with pixel coordinates written at one pixel per
      millimetre, loads without error and plays to the end; the head is back at the origin
      with the pen up, and the canvas holds exactly the edges of the polylines the plotter
      draws, which are the image's ink runs on the scanned rows. */
  lemma RasterReplay(img: Raster.Image, penNibMm: real, step: int, nib: real -> string, s0: Sim)
    requires img.Valid()
    ensures var prog := Raster.RasterProgram(img, penNibMm, step);
      var loaded := ParseGcode(Lines(prog, PixelText, nib));
      loaded.Ok? && Run(ResetLifted(s0), loaded.value).Ok?
      && var end := Run(ResetLifted(s0), loaded.value).value;
      end.pos == (0.0, 0.0) && !end.penDown
      && end.segments == AllEdges(PlaceAll(Trace(prog, AtRest(0), 0).drawn, PixelValue))
      && end.feedShown == 2000.0
  {
    var prog := Raster.RasterProgram(img, penNibMm, step);
    PixelsWritten();
    RasterPlot.TraceRasterProgram(img, penNibMm, step);
    ReplayRests(prog, PixelText, PixelValue, nib, 0, s0, Trace(prog, AtRest(0), 0).drawn);
    ReplayShowsFeed(prog, PixelText, PixelValue, nib, s0);
    HomeShowsDefaultFeed(Raster.Header(penNibMm) + Raster.RowsCommands(img, Raster.ScannedRows(img.Height(), step)), 0.0);
  }

  /** The text program, with millimetres written by any writer that reads 0 as 0, loads
      without error and plays to the end; when some character was kept the head is back at
      the origin with the pen up and the canvas holds exactly the edges of the glyph strokes,
      character by character in serpentine order. The feed panel shows 2000 at the end. */
  lemma TextReplay(entries: seq<TextPipeline.OcrEntry>, key: TextOrder.Glyph -> int,
                   text: real -> string, value: real -> real, nib: real -> string, s0: Sim)
    requires Writes(text, value) && value(0.0) == 0.0
    ensures var prog := TextPipeline.TextProgram(entries, key);
      var loaded := ParseGcode(Lines(prog, text, nib));
      loaded.Ok? && Run(ResetLifted(s0), loaded.value).Ok?
      && var end := Run(ResetLifted(s0), loaded.value).value;
      end.pos == (0.0, 0.0) && !end.penDown && end.feedShown == 2000.0
      && (TextPipeline.Characters(entries) != [] ==>
            var order := TextOrder.Serpentine(TextPipeline.Characters(entries), key);
            TextPipeline.WellFormedFont(TextPipeline.Font()) && TextPipeline.AllDrawable(TextPipeline.Font(), order)
            && end.segments == AllEdges(PlaceAll(TextPlot.Drawing(TextPipeline.Font(), order), value)))
      && (TextPipeline.Characters(entries) == [] ==> end.segments == [])
  {
    if TextPipeline.Characters(entries) == [] {
      BlankTextReplay(entries, key, text, value, nib, s0);
    } else {
      DrawnTextReplay(entries, key, text, value, nib, s0);
    }
  }

  /** Without a kept character the program is the return home alone: nothing is drawn. */
  lemma BlankTextReplay(entries: seq<TextPipeline.OcrEntry>, key: TextOrder.Glyph -> int,
                        text: real -> string, value: real -> real, nib: real -> string, s0: Sim)
    requires Writes(text, value) && value(0.0) == 0.0 && TextPipeline.Characters(entries) == []
    ensures var prog := TextPipeline.TextProgram(entries, key);
      var loaded := ParseGcode(Lines(prog, text, nib));
      loaded.Ok? && Run(ResetLifted(s0), loaded.value).Ok?
      && var end := Run(ResetLifted(s0), loaded.value).value;
      end.pos == (0.0, 0.0) && !end.penDown && end.segments == [] && end.feedShown == 2000.0
  {
    var prog := TextPipeline.TextProgram(entries, key);
    TextPipeline.CharactersAreKeptEntries(entries);
    TextPlot.TextProgramDraws(entries, key);
    assert prog == [Move(0.0, 0.0, None)];
    assert Trace(prog, AtRest(0.0), 0.0) == Tracer((0.0, 0.0), false, [], []);
    ReplayRests(prog, text, value, nib, 0.0, s0, []);
    assert PlaceAll<real>([], value) == [];
    ReplayShowsFeed(prog, text, value, nib, s0);
    assert FeedAfter(prog, 0.0) == FeedAfter(prog[1..], 2000.0);
  }

  /** With kept characters the canvas holds the glyph strokes in serpentine order. */
  lemma DrawnTextReplay(entries: seq<TextPipeline.OcrEntry>, key: TextOrder.Glyph -> int,
                        text: real -> string, value: real -> real, nib: real -> string, s0: Sim)
    requires Writes(text, value) && value(0.0) == 0.0 && TextPipeline.Characters(entries) != []
    ensures var prog := TextPipeline.TextProgram(entries, key);
      var loaded := ParseGcode(Lines(prog, text, nib));
      var order := TextOrder.Serpentine(TextPipeline.Characters(entries), key);
      loaded.Ok? && Run(ResetLifted(s0), loaded.value).Ok?
      && var end := Run(ResetLifted(s0), loaded.value).value;
      end.pos == (0.0, 0.0) && !end.penDown && end.feedShown == 2000.0
      && TextPipeline.WellFormedFont(TextPipeline.Font()) && TextPipeline.AllDrawable(TextPipeline.Font(), order)
      && end.segments == AllEdges(PlaceAll(TextPlot.Drawing(TextPipeline.Font(), order), value))
  {
    var prog := TextPipeline.TextProgram(entries, key);
    var order := TextOrder.Serpentine(TextPipeline.Characters(entries), key);
    TextPlot.TextProgramDraws(entries, key);
    ReplayRests(prog, text, value, nib, 0.0, s0, TextPlot.Drawing(TextPipeline.Font(), order));
    TextPlot.TextProgramShape(entries, key);
    ReplayShowsFeed(prog, text, value, nib, s0);
    HomeShowsDefaultFeed(TextPipeline.TextHeader() + TextPipeline.GlyphsCommands(TextPipeline.Font(), order), 0.0);
  }

  /** The text program with millimetres written to two decimals, as the pipeline writes them:
      it loads and plays to the end, home with the pen up, and the canvas holds exactly the
      edges of the glyph strokes, each point rounded to the nearest hundredth of a millimetre,
      character by character in serpentine order. */
  lemma TextReplayTwoDecimals(entries: seq<TextPipeline.OcrEntry>, key: TextOrder.Glyph -> int,
                              nib: real -> string, s0: Sim)
    ensures var prog := TextPipeline.TextProgram(entries, key);
      var loaded := ParseGcode(Lines(prog, MmText, nib));
      loaded.Ok? && Run(ResetLifted(s0), loaded.value).Ok?
      && var end := Run(ResetLifted(s0), loaded.value).value;
      end.pos == (0.0, 0.0) && !end.penDown && end.feedShown == 2000.0
      && (TextPipeline.Characters(entries) != [] ==>
            var order := TextOrder.Serpentine(TextPipeline.Characters(entries), key);
            TextPipeline.WellFormedFont(TextPipeline.Font()) && TextPipeline.AllDrawable(TextPipeline.Font(), order)
            && end.segments == AllEdges(PlaceAll(TextPlot.Drawing(TextPipeline.Font(), order), MmValue)))
      && (TextPipeline.Characters(entries) == [] ==> end.segments == [])
  {
    MillimetresWritten();
    TextReplay(entries, key, MmText, MmValue, nib, s0);
  }

  /** The raster replay through the reset as written, which keeps the pen: loading into a
      simulator whose pen is up, as a fresh one's is and as every played raster program
      leaves it, plays the same way as after the lifted reset. */
  lemma RasterReplayAsWritten(img: Raster.Image, penNibMm: real, step: int, nib: real -> string, s0: Sim)
    requires img.Valid() && !s0.penDown
    ensures var prog := Raster.RasterProgram(img, penNibMm, step);
      var loaded := ParseGcode(Lines(prog, PixelText, nib));
      loaded.Ok? && Run(Reset(s0), loaded.value).Ok?
      && var end := Run(Reset(s0), loaded.value).value;
      end.pos == (0.0, 0.0) && !end.penDown
      && end.segments == AllEdges(PlaceAll(Trace(prog, AtRest(0), 0).drawn, PixelValue))
      && end.feedShown == 2000.0
  {
    PenUpResetLifts(s0);
    RasterReplay(img, penNibMm, step, nib, s0);
  }

  /** The raster program loaded into the simulator as first shown. */
  lemma RasterReplayFromStart(img: Raster.Image, penNibMm: real, step: int, nib: real -> string)
    requires img.Valid()
    ensures var prog := Raster.RasterProgram(img, penNibMm, step);
      var loaded := ParseGcode(Lines(prog, PixelText, nib));
      loaded.Ok? && Run(Reset(Initial()), loaded.value).Ok?
      && var end := Run(Reset(Initial()), loaded.value).value;
      end.pos == (0.0, 0.0) && !end.penDown
      && end.segments == AllEdges(PlaceAll(Trace(prog, AtRest(0), 0).drawn, PixelValue))
      && end.feedShown == 2000.0
  {
    RasterReplayAsWritten(img, penNibMm, step, nib, Initial());
  }

  /** The text replay through the reset as written, from a simulator whose pen is up. */
  lemma TextReplayAsWritten(entries: seq<TextPipeline.OcrEntry>, key: TextOrder.Glyph -> int,
                            text: real -> string, value: real -> real, nib: real -> string, s0: Sim)
    requires Writes(text, value) && value(0.0) == 0.0 && !s0.penDown
    ensures var prog := TextPipeline.TextProgram(entries, key);
      var loaded := ParseGcode(Lines(prog, text, nib));
      loaded.Ok? && Run(Reset(s0), loaded.value).Ok?
      && var end := Run(Reset(s0), loaded.value).value;
      end.pos == (0.0, 0.0) && !end.penDown && end.feedShown == 2000.0
      && (TextPipeline.Characters(entries) != [] ==>
            var order := TextOrder.Serpentine(TextPipeline.Characters(entries), key);
            TextPipeline.WellFormedFont(TextPipeline.Font()) && TextPipeline.AllDrawable(TextPipeline.Font(), order)
            && end.segments == AllEdges(PlaceAll(TextPlot.Drawing(TextPipeline.Font(), order), value)))
      && (TextPipeline.Characters(entries) == [] ==> end.segments == [])
  {
    PenUpResetLifts(s0);
    TextReplay(entries, key, text, value, nib, s0);
  }

  /** The text program, in two-decimal millimetres, loaded into the simulator as first shown. */
  lemma TextReplayFromStart(entries: seq<TextPipeline.OcrEntry>, key: TextOrder.Glyph -> int,
                            nib: real -> string)
    ensures var prog := TextPipeline.TextProgram(entries, key);
      var loaded := ParseGcode(Lines(prog, MmText, nib));
      loaded.Ok? && Run(Reset(Initial()), loaded.value).Ok?
      && var end := Run(Reset(Initial()), loaded.value).value;
      end.pos == (0.0, 0.0) && !end.penDown && end.feedShown == 2000.0
      && (TextPipeline.Characters(entries) != [] ==>
            var order := TextOrder.Serpentine(TextPipeline.Characters(entries), key);
            TextPipeline.WellFormedFont(TextPipeline.Font()) && TextPipeline.AllDrawable(TextPipeline.Font(), order)
            && end.segments == AllEdges(PlaceAll(TextPlot.Drawing(TextPipeline.Font(), order), MmValue)))
      && (TextPipeline.Characters(entries) == [] ==> end.segments == [])
  {
    MillimetresWritten();
    TextReplayAsWritten(entries, key, MmText, MmValue, nib, Initial());
  }
}
