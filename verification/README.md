# cnc_plotter in Dafny

A model of the core of the `cnc_plotter` pen plotter, with proofs about it. The model covers:

- **The raster generator.** It scans every `y_step`-th row of a black-and-white image in serpentine order. It lowers the pen at the first ink pixel of a run and lifts it after the last one.
- **The text pipeline.** It keeps the single recognised characters that the embedded single-stroke font can draw. It groups them into lines, sorts each line by left edge and reverses every odd line. It then draws each character's strokes scaled into the character's bounding box, in millimetres on the bed.
- **The simulator's G-code loader.** This is `_parse_gcode`: strip, upper-case, skip comments, classify `M3`/`M5`/`G0`..`G3`, and read the fields with `float`.
- **The simulator's playback.** This is one call of the animation loop, the play/pause toggle it falls back on, and `reset_simulation`.
- **The derived resolution constants** of the configuration.

Modules follow the program's structure:

| file | module | what it holds |
|---|---|---|
| `wrappers.dfy` | `Wrappers` | `Option` and `Result` |
| `pynum.dfy` | `PyNum` | Python's `int()` on a float (truncation toward zero) |
| `config.dfy` | `Config` | the machine constants and the resolution derived from them |
| `gcode.dfy` | `GCode` | the emitted command lines as a datatype; pen alternation; what the pen draws (`Trace`) |
| `runs.dfy` | `Runs` | maximal runs of ink in a row, the raster's reference definition |
| `raster.dfy` | `Raster` | `generate_raster_gcode`: the pen machine, the loops as methods |
| `raster_plot.dfy` | `RasterPlot` | what the raster program draws, in image terms |
| `text_order.dfy` | `TextOrder` | line grouping, stable sort by left edge, serpentine order |
| `text_pipeline.dfy` | `TextPipeline` | the font, `ocr_to_characters`, `generate_text_gcode` |
| `text_plot.dfy` | `TextPlot` | what the text program draws |
| `gcode_parser.dfy` | `GcodeParser` | `_parse_gcode`, including `str.strip`, the regular expression and `float` on its tokens |
| `playback.dfy` | `Playback` | the animation loop step, play/pause, reset |
| `replay.dfy` | `Replay` | a program written out, loaded and played: the simulator follows the plotter |
| `program_replay.dfy` | `ProgramReplay` | the same, for the two generators' programs |

Each operation has a reference to check it against:

- **Raster generator.** It is written as a two-state pen machine (`Raster.ScanFrom`) and as methods with the source's loops. It is checked against maximal ink runs (`Runs.MaximalRun`).
- **Line grouping and sorting.** These are checked against sortedness, permutation and stability. Stability is given a uniqueness lemma.
- **The loader.** It is checked against the rendering of each command. The numbers a generator writes read back exactly.
- **Playback.** It is checked against the plotter's own trace of the same program (`GCode.Trace`).

## Model

| member | source | states |
|---|---|---|
| `Config.Derive` | app/config.py:33-45 | physical steps/mm is steps per revolution over belt travel per revolution; machine dpi is that times 25.4; processing dpi is the smaller of machine and target dpi; processing steps/mm is processing dpi over 25.4 and never exceeds the physical steps/mm |
| `Config.ShippedResolution` | app/config.py:22-45 | with the shipped constants the machine resolves 102.4 steps/mm = 2600.96 dpi, above the 600 dpi target (`TARGET_DPI`, app/config.py:5), so images are processed at 600 dpi = 6000/254 steps/mm |
| `Config.ProcessingStepsPerMm` | app/config.py:45 | the processing resolution times 25.4 mm/inch is the 600 dpi target |
| `PyNum.Trunc` | app/gcode_generator.py:43 | `int()` on a float truncates toward zero: the result is the integer part, from below for non-negative and from above for negative values |
| `Raster.YStep` | app/gcode_generator.py:43-45 | the row step is never 0: it is 1 when the nib width in pixels truncates to 0, the truncated nib width when that is at least 1, and negative for a nib of -1 pixel or less |
| `Raster.RowsFrom` | app/gcode_generator.py:51 | every row `range(y, height, step)` yields lies in `[y, height)` |
| `RasterPlot.ScannedRowsMembers` | app/gcode_generator.py:51 | a row is scanned iff the step is positive, the row is inside the image and is a multiple of the step; no row is scanned when the step is not positive |
| `Runs.RunsFromAreMaximalRuns` | app/gcode_generator.py:58-93 | the runs the pen machine closes are maximal runs of ink, in strictly increasing order, and every maximal run from the start position on is among them |
| `Runs.NoRunsIffBlank` | app/gcode_generator.py:58-93 | a row has no maximal run iff it holds no ink |
| `Raster.ScanMatchesRuns` | app/gcode_generator.py:55-93 | the pen machine over a row, pen up at the start, emits one bracket per maximal ink run: travel to its first pixel, `M3`, move to its last pixel, `M5` |
| `Raster.ScanRow` | app/gcode_generator.py:55-93 | the inner loop as written, with its pen variable, `last_x` and the end-of-row lift, emits what the pen machine `ScanFrom` emits; `Raster.ScanMatchesRuns` makes that one bracket per maximal ink run, in scan order |
| `Raster.ScanRows` | app/gcode_generator.py:51-93 | the row loop as written visits only rows inside the image and concatenates each scanned row's commands in row order; `RasterPlot.ScannedRowsMembers` says which rows are scanned |
| `Raster.GenerateRasterGcode` | app/gcode_generator.py:9-100 | the generator as written produces `RasterProgram`; what that draws is stated by `RasterPlot.RasterDrawsInkRuns` |
| `RasterPlot.MaximalRunIffInkRun` | app/gcode_generator.py:55-93 | a run of scan positions is maximal in the scan-ordered row iff the columns it covers are a maximal ink run of the image row, whichever the scan direction |
| `RasterPlot.RowSegmentsAreInkRuns` | app/gcode_generator.py:55-93 | the strokes a row draws are exactly its maximal ink runs, each oriented in the row's scan direction |
| `RasterPlot.BlankRowIffNoSegments` | app/gcode_generator.py:58-93 | a row draws nothing iff it holds no ink |
| `RasterPlot.TraceRasterProgram` | app/gcode_generator.py:30-96 | the plotter executing the program from rest ends at the origin with the pen up, having drawn the strokes of the scanned rows in order |
| `RasterPlot.PenDiscipline` | app/gcode_generator.py:30-36 | the header and the return home keep an alternating body alternating after the header's initial lift, and add no pen-down |
| `RasterPlot.RasterDrawsInkRuns` | app/gcode_generator.py:9-100 | the program ends at the origin with the pen up; after the header's lift, `M3` and `M5` alternate; there is one `M3` per stroke; a stroke is drawn iff it covers a maximal ink run of a scanned row, in that row's scan direction |
| `RasterPlot.BlankImageIffEmptyBody` | app/gcode_generator.py:51-96 | the program is just the three header lines and the return home iff no scanned row holds ink |
| `TextPipeline.FontCharacters` | app/text_pipeline.py:16-27 | the font holds the nine capitals A B C D E H L O W and the space, and only the space has no strokes |
| `TextPipeline.FontStrokesNonEmpty` | app/text_pipeline.py:16-27 | every stroke of the font has a first point, so `stroke[0]` never fails |
| `TextPipeline.Characters` | app/text_pipeline.py:35-46 | every produced character is in the font |
| `TextPipeline.CharactersAreKeptEntries` | app/text_pipeline.py:35-46 | a character is produced iff some entry is kept (confidence truncates to a positive integer, one character of text, upper-cased into the font) and it is that entry's upper-cased character and box; there are no more characters than entries |
| `TextPipeline.OcrToCharacters` | app/text_pipeline.py:31-47 | the loop over the table as written keeps exactly the kept entries' characters, in table order |
| `TextOrder.LineKeysAreSortedKeys` | app/text_pipeline.py:61-70 | `sorted(lines.keys())` ascends strictly and holds exactly the line keys some character has |
| `TextOrder.SortByXIsStableSort` | app/text_pipeline.py:71 | sorting a line by left edge yields an ordered permutation that keeps characters with equal left edges in their input order |
| `TextOrder.StableSortUnique` | app/text_pipeline.py:71 | two lists sorted by left edge that hold the same characters per left edge, in the same order, are equal, so the stable sort is determined by its input |
| `TextOrder.SerpentineIsPermutation` | app/text_pipeline.py:61-74 | grouping, sorting and reversing lose and duplicate no character |
| `TextOrder.SerpentineOrder` | app/text_pipeline.py:61-74 | the drawing order is a permutation of the characters; line keys never decrease along it; within the j-th line left edges ascend when j is even and descend when j is odd |
| `TextPipeline.FontBoxIsBoundingBox` | app/text_pipeline.py:94-96 | font x -0.5 and 0.5 land on the box's left and right edges and font y 0.9 and -0.8 on its top and bottom; larger font coordinates land further right and further up |
| `TextPipeline.TopLeftCorner` | app/text_pipeline.py:95-100 | in millimetres, the font's top-left corner is the box's left edge over the processing resolution and the bed height less its top |
| `TextPipeline.EmitStroke` | app/text_pipeline.py:90-114 | one stroke as written appends that stroke's commands; `TextPlot.TraceStroke` shows they draw exactly the mapped stroke |
| `TextPipeline.EmitCharacter` | app/text_pipeline.py:83-114 | the loop over one character's strokes appends the commands of its strokes in order; `TextPlot.GlyphProgramDraws` states what they draw |
| `TextPipeline.GenerateTextGcode` | app/text_pipeline.py:49-118 | the pipeline as written produces `TextProgram`; `TextPlot.TextProgramDraws` states what that draws, and when it is the lone move home |
| `TextPlot.SpaceDrawsNothing` | app/text_pipeline.py:26 | with the embedded font a character emits no command iff it is the space |
| `TextPlot.TextPenDiscipline` | app/text_pipeline.py:78-80 | the text header and the return home keep an alternating body alternating after the header's lift and add no pen-down |
| `TextPlot.TextProgramEmptyIff` | app/text_pipeline.py:54-56 | the program is the single move home iff no entry is kept |
| `TextPlot.TextProgramShape` | app/text_pipeline.py:76-116 | with characters, the program is the header, the characters' commands in serpentine order and the return home |
| `TextPlot.GlyphProgramDraws` | app/text_pipeline.py:77-116 | header, characters and return home, executed from rest: the pen ends at the origin, up; the drawing is exactly the mapped strokes in order; there is one `M3` per stroke |
| `TextPlot.TextProgramDraws` | app/text_pipeline.py:49-118 | the program is the single move home iff nothing is kept; otherwise, from rest, it ends at the origin with the pen up, `M3` and `M5` alternate after the header's lift, there is one `M3` per stroke, and it draws exactly the mapped strokes of the characters in serpentine order |
| `GcodeParser.StripIsTrim` | app/gui_controller.py:126 | `strip()` cuts white space off both ends: the result is a slice of the line, all white outside it, neither end white, and empty iff the line is all white |
| `GcodeParser.IntTextRoundTrip` | app/gui_controller.py:135-139 | `float` reads an integer's numeral back as that integer |
| `GcodeParser.Fixed2RoundTrip` | app/gui_controller.py:135-139 | `float` reads a two-decimal numeral back as its exact value, negative values included |
| `GcodeParser.FloatAcceptsNumerals` | app/gui_controller.py:124-139 | a token the pattern `[\d\.-]+` captures reads as a number iff, after an optional leading minus, it has no minus, at most one point and at least one digit; otherwise loading fails |
| `GcodeParser.MalformedNumbers` | app/gui_controller.py:124-139 | tokens the pattern `[\d\.-]+` captures but `float` rejects (`-`, `.`, `1.2.3`, `1-2`) are errors |
| `GcodeParser.SearchGFinds` | app/gui_controller.py:124-133 | the search finds a match iff `G0`..`G3` occurs somewhere in the line |
| `GcodeParser.ClassifyNormalized` | app/gui_controller.py:127-140 | a normalised line yields a command iff it is neither blank nor a comment and starts with `M3`, `M5`, or with `G` and contains `G0`..`G3`; the command keeps the line; `M3` is tested before `M5` before `G`; only a `G` line can fail, on a number |
| `GcodeParser.ParseLineClassifies` | app/gui_controller.py:125-140 | the same for a raw line, in terms of the line stripped and upper-cased |
| `GcodeParser.CommentLineSkipped` | app/gui_controller.py:127 | a line starting with `;` yields nothing |
| `GcodeParser.PenLines` | app/gui_controller.py:129-130 | the generators' pen lines read as `M3` and `M5` |
| `GcodeParser.MatchMove` | app/gui_controller.py:124 | on `G1 X<x> Y<y>` the pattern captures code 1, x and y, and no I, J or F |
| `GcodeParser.MatchFeedMove` | app/gui_controller.py:124 | on `G1 X<x> Y<y> F<f>` it captures code 1, x, y and the feed |
| `GcodeParser.MatchCommentedMove` | app/gui_controller.py:124 | on `G1 X<x> Y<y> ;<comment>` it captures code 1, x and y, and nothing from the comment |
| `GcodeParser.CollectOkIff` | app/gui_controller.py:125-141 | collecting the per-line results succeeds iff every line succeeds |
| `GcodeParser.ParseGcodeIsSubsequence` | app/gui_controller.py:121-141 | loading succeeds iff no line fails; the commands are then those of the yielding lines, one each, in input order, with no yielding line left out |
| `GcodeParser.ReadGcode` | app/gui_controller.py:121-141 | the loop as written, stopping at the first number error, returns `ParseGcode`; `GcodeParser.ParseGcodeIsSubsequence` states what that loads |
| `Playback.Step` | app/gui_controller.py:149-179 | one command: `M3` lowers the pen and the label, `M5` lifts both, `G1`..`G3` move the head to X, Y, adding a segment iff the pen is down and showing the feed, or 2000 when the feed is absent or 0 (`cmd.get('f') or 2000`); `G0` only advances; `G1`..`G3` without X or Y is an error; the index advances and the line is shown |
| `Playback.Tick` | app/gui_controller.py:97-149 | while playing with commands left, a loop call is one step; past the end it pauses; while paused, toggling plays and steps at once |
| `Playback.Reset` | app/gui_controller.py:108-119 | reset returns to the first command, paused, head at the origin, canvas cleared, label "UP", feed 0, and leaves the drawing pen as it was |
| `Playback.Run` | app/gui_controller.py:143-180 | playing on reaches the end of the commands without changing play state |
| `Playback.RunIsSteps` | app/gui_controller.py:143-180 | playing on from an index executes exactly the commands from that index on, one after the other |
| `Playback.TicksPlayToEnd` | app/gui_controller.py:97-180 | while playing, as many loop calls as commands remain do what `Run` does, and the next call pauses without changing anything else |
| `Playback.RunPen` | app/gui_controller.py:153-158 | after playing on, the pen is the one the last `M3`/`M5` left, or unchanged without one |
| `Playback.ResetKeepsPenDown` | app/gui_controller.py:108-119 | after `M3` and a reset the label shows the pen up, but the next move still draws a segment |
| `Playback.PenLabelStaysTruthful` | app/gui_controller.py:153-158 | a reset that also lifts the pen leaves the label truthful, and every step keeps it truthful |
| `Replay.RenderReads` | app/gui_controller.py:125-139 | every line a command is written as loads back as what the command means: nothing for a comment, `M3`/`M5` for the pen, a `G1` to the written coordinates and feed for a move |
| `Replay.LinesRead` | app/gui_controller.py:121-141 | a written program loads without error, command for command |
| `Replay.StepSync` | app/gui_controller.py:149-179 | playing a loaded command keeps the simulator in step with the plotter executing it: same position, same pen, and the canvas holds the edges of the polylines drawn |
| `Replay.ReplayDraws` | app/gui_controller.py:108-180 | any program, written, loaded and played after a reset that lifts the pen, ends in step with the plotter that executes it from rest |
| `Replay.ReplayRests` | app/gui_controller.py:108-180 | a program that takes the plotter from rest back to rest plays back to the origin with the pen up and exactly the edges of its drawing on the canvas |
| `Replay.StepFeed` | app/gui_controller.py:159-163 | playing the loaded line of a move shows the feed written on it, or 2000 for a line written without `F` (the text pipeline writes 5000 on travel moves and 2000 on drawing moves); pen commands leave the feed as it was |
| `Replay.ReplayShowsFeed` | app/gui_controller.py:108-180 | a program written, loaded and played after a reset ends showing the feed of its last move, or the reset's 0 when it has no move |
| `Replay.HomeShowsDefaultFeed` | app/gui_controller.py:162 | a program ending with the return home, which is written without `F`, ends showing 2000 |
| `Replay.MillimetresWritten` | app/text_pipeline.py:103-112 | millimetres written with two decimals read back as their value rounded to the hundredth, and 0 reads back as 0 |
| `Replay.MmValueNear` | app/text_pipeline.py:103-112 | two-decimal rounding moves a coordinate by at most half a hundredth of a millimetre |
| `Replay.PixelsWritten` | app/gcode_generator.py:68-91 | pixel coordinates written with two decimals read back as their value |
| `ProgramReplay.RasterReplay` | app/gcode_generator.py:9-100 | the raster program, at one pixel per millimetre, loads and plays to the end; the head is home with the pen up, and the canvas holds exactly the edges of the polylines the plotter draws; the feed panel ends at 2000 |
| `ProgramReplay.TextReplay` | app/text_pipeline.py:49-118 | the text program loads and plays to the end with the head home and the pen up; the canvas holds the edges of the glyph strokes in serpentine order, or nothing when no character was kept; the feed panel ends at 2000; this holds for any coordinate writer that reads back, with 0 read as 0 |
| `ProgramReplay.TextReplayTwoDecimals` | app/text_pipeline.py:49-118 | the same for millimetres written with two decimals: the canvas holds the edges of the glyph strokes with every point rounded to the hundredth |
| `Playback.PenUpResetLifts` | app/gui_controller.py:108-119 | when the pen is already up, `reset_simulation` as written leaves the simulator exactly as the reset that also lifts the pen |
| `ProgramReplay.RasterReplayAsWritten` | app/gui_controller.py:88-119 | loading the raster program resets through `reset_simulation` as written; from any simulator whose pen is up the replay still ends home with the pen up, the traced polylines' edges on the canvas and feed 2000 |
| `ProgramReplay.RasterReplayFromStart` | app/gui_controller.py:15-19 | the same from the simulator as first built, whose pen is up |
| `ProgramReplay.TextReplayAsWritten` | app/gui_controller.py:88-119 | the text replay through `reset_simulation` as written, from any simulator whose pen is up, for any coordinate writer that reads back |
| `ProgramReplay.TextReplayFromStart` | app/gui_controller.py:15-19 | the text replay in two-decimal millimetres from the simulator as first built, with no precondition |

## Left out

- Number formatting. The generators format coordinates with `:.2f` after dividing by the resolution. The model keeps raster coordinates in pixels and text coordinates as exact reals. Floating-point rounding is not modelled.
- Replay resolution. `ProgramReplay.RasterReplay` writes pixel coordinates as two-decimal numerals at one pixel per millimetre (`Replay.PixelText`).
- Text coordinate writer. `ProgramReplay.TextReplay` holds for any coordinate writer that reads back, with 0 read as 0. `ProgramReplay.TextReplayTwoDecimals` applies it to two-decimal millimetres (`Replay.MmText`). These round halves up rather than as Python formats the binary float.
- The raster header. Its literal `G1 X0 Y0 F2000` is modelled as a move home at feed 2000, whose text is `Render`'s: `G1 X0.00 Y0.00 F2000`. Both lines load to the same kind, X, Y and feed; only the line shown on the status panel differs in its digits.
- The text header. The same applies to `G1 X0 Y0 F5000`, and to the literal `G1 X0 Y0` returned when no character is recognised (app/text_pipeline.py:56). That literal is modelled as a move home without a feed, `Move(0.0, 0.0, None)`. With two-decimal millimetres it is written `G1 X0.00 Y0.00`, which loads to the same kind, X and Y, and no feed.
- The nib comment. Python's `str` of the nib width is a parameter.
- The recogniser. Tesseract's table is an input (`OcrEntry` rows). The confidence is taken as a number.
- Upper-casing. `str.upper()` is modelled on ASCII letters only.
- Digits. The loader's number class `[\d\.-]` and `float()` are modelled on the ASCII digits only. Python's `str` patterns and `float` also accept other Unicode decimal digits. A line such as `G1 X٣ Y٤` therefore loads without X and Y in the model, and stops playback with `MissingCoordinate`; the source would draw to (3, 4).
- The line key. `round(y / (h * 1.5))` is the `key` parameter. Python's rounding of halves to even and the division by zero for a box of height 0 are not modelled.
- Timing and animation. The animation delay, the speed slider and the `after` scheduling are left out. The model steps one command per call.
- The canvas. The mapping of millimetres to canvas pixels is left out. The canvas is modelled as the list of drawn segments in millimetres.
- The GUI. The widgets, the label colours and the feed's `:.0f` display are left out.
- Arc commands. `G2`/`G3` are drawn as straight lines, as the source does. I and J are read but unused.
- Console output. The prints in `generate_raster_gcode` (app/gcode_generator.py:48, 99), in `generate_text_gcode` (app/text_pipeline.py:51, 55, 58, 76, 117) and in the loader (app/gui_controller.py:95) have no effect on the results. They are not modelled.
- Other files. `visualize_gcode_path`, image loading and thresholding (`app/image_processing.py`) and `main.py` are context and not part of this model.
- Loader errors. A number error propagates out of the loader as a `ParseError`. The source raises `ValueError`.
- Missing coordinates. A `G1`..`G3` without X or Y is a `PlayError`. The source raises `TypeError` when mapping `None` to the canvas (app/gui_controller.py:166). Before that it has already shown the line (150) and the feed (163), and it stays "playing" with no further loop call scheduled. The model's `Err(MissingCoordinate)` carries neither display update nor the play state.
- The photo generator. `main.py:6` imports `generate_kdtree_gcode` and `analyze_gcode` from `app.gcode_generator`, which defines neither. Only the raster and text generators are modelled.

## Findings

| source | as written | input that shows it | evidently intended | confidence | as-written member | corrected member |
|---|---|---|---|---|---|---|
| app/gui_controller.py:108-119 | `reset_simulation` sets the pen label to "UP" but leaves `pen_is_down` as it was | load a program, play past an `M3`, reset, play: the first `G1` draws a red segment while the label reads "UP" | reset also lifts the pen, so the label is truthful and a replay starts with the pen up | medium, not executed | `Playback.ResetKeepsPenDown` | `Playback.PenLabelStaysTruthful` |

All replay properties (`Replay.ReplayDraws`, `Replay.ReplayRests`, `ProgramReplay.RasterReplay`, `ProgramReplay.TextReplay`) start from `Playback.ResetLifted`, the corrected reset. The two resets agree when the pen is already up (`Playback.PenUpResetLifts`). A fresh simulator has the pen up (app/gui_controller.py:19), and every generated program ends with it up. So the generators' replays also hold through the reset as written: `ProgramReplay.RasterReplayAsWritten` and `ProgramReplay.TextReplayAsWritten` from any simulator with the pen up, and `ProgramReplay.RasterReplayFromStart` and `ProgramReplay.TextReplayFromStart` from the simulator as first shown.
