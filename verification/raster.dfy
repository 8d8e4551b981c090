/**
 The serpentine raster generator: scan every `yStep`-th row of a bilevel image, left to
 right on even rows and right to left on odd rows, lowering the pen at the first ink pixel
 of a run and lifting it after the last one. Coordinates stay in pixels; the conversion to
 millimetres and its two-decimal formatting are not modelled.
 */
module Raster {
  import opened Wrappers
  import opened GCode
  import opened Runs
  import opened PyNum

  /** A bilevel image: `ink[y][x]` holds when the pixel at column x of row y is 0 (black). */
  datatype Image = Image(width: nat, ink: seq<seq<bool>>)
  {
    function Height(): nat { |ink| }

    /** Every row has `width` pixels. */
    predicate Valid()
    {
      forall y :: 0 <= y < |ink| ==> |ink[y]| == width
    }
  }

  /** The row step: the nib width in pixels, truncated, and 1 when that truncates to 0. */
  function YStep(penNibMm: real, resolution: real): (step: int)
    ensures step != 0
    ensures -1.0 < penNibMm * resolution < 1.0 ==> step == 1
    ensures 1.0 <= penNibMm * resolution ==> step as real <= penNibMm * resolution < step as real + 1.0
    ensures penNibMm * resolution <= -1.0 ==> step < 0
  {
    var s := Trunc(penNibMm * resolution);
    if s == 0 then 1 else s
  }

  /** The rows `y, y + step, y + 2*step, ...` below `height`. */
  function RowsFrom(y: nat, height: nat, step: nat): (ys: seq<nat>)
    requires step > 0
    ensures forall k :: 0 <= k < |ys| ==> y <= ys[k] < height
    decreases height - y
  {
    if y >= height then [] else [y] + RowsFrom(y + step, height, step)
  }

  /** The rows `range(0, height, step)` visits; a negative step visits none. */
  function ScannedRows(height: nat, step: int): (ys: seq<nat>)
  {
    if step <= 0 then [] else RowsFrom(0, height, step)
  }

  /** Column at scan position `i` of row `y`: ascending on even rows, descending on odd rows. */
  function ScanX(width: nat, y: int, i: nat): (x: nat)
    requires i < width
    ensures x < width
  {
    if y % 2 == 0 then i else width - 1 - i
  }

  /** Row `y` read in its scan direction. */
  function Cells(img: Image, y: nat): (cells: seq<bool>)
    requires img.Valid() && y < img.Height()
    ensures |cells| == img.width
  {
    seq(img.width, i requires 0 <= i < img.width => img.ink[y][ScanX(img.width, y, i)])
  }

  /** Column moved to when a white pixel at column x ends a run: the previous column in scan order. */
  function LastX(x: int, y: int): int
  {
    if y % 2 == 0 then x - 1 else x + 1
  }

  /** Column moved to when a run is still open at the end of row y: the row's last column in scan order. */
  function EndOfRowX(width: nat, y: int): int
  {
    if y % 2 == 0 then width - 1 else 0
  }

  /** The two-state pen machine over row `y`, read in scan order as `cells`, from scan
      position `i` with the pen down iff `down`: a black pixel with the pen up moves there and
      lowers the pen; a white pixel with the pen down moves back to the previous column and
      lifts it; at the end of the row an open run is closed at the row's last column. */
  function ScanFrom(cells: seq<bool>, y: nat, i: nat, down: bool): seq<Command<int>>
    requires i <= |cells|
    decreases |cells| - i
  {
    if i == |cells| then
      if down then [Move(EndOfRowX(|cells|, y), y, None), PenUp] else []
    else
      var x := ScanX(|cells|, y, i);
      if cells[i] && !down then [Move(x, y, None), PenDown] + ScanFrom(cells, y, i + 1, true)
      else if !cells[i] && down then [Move(LastX(x, y), y, None), PenUp] + ScanFrom(cells, y, i + 1, false)
      else ScanFrom(cells, y, i + 1, down)
  }

  /** The bracket drawing one run of row y: travel to its first pixel, pen down, draw to its
      last pixel, pen up. */
  function RunBracket(width: nat, y: nat, r: Run): seq<Command<int>>
    requires r.first <= r.last < width
  {
    [Move(ScanX(width, y, r.first), y, None), PenDown, Move(ScanX(width, y, r.last), y, None), PenUp]
  }

  predicate RunsWithin(width: nat, rs: seq<Run>)
  {
    forall j :: 0 <= j < |rs| ==> rs[j].first <= rs[j].last < width
  }

  /** One bracket per run, in order. */
  function Brackets(width: nat, y: nat, rs: seq<Run>): seq<Command<int>>
    requires RunsWithin(width, rs)
    decreases |rs|
  {
    if rs == [] then [] else RunBracket(width, y, rs[0]) + Brackets(width, y, rs[1..])
  }

  /** What row `y` should contribute: one bracket per maximal run of ink, in scan order. */
  function RowCommands(img: Image, y: nat): seq<Command<int>>
    requires img.Valid() && y < img.Height()
  {
    Brackets(img.width, y, MaximalRuns(Cells(img, y)))
  }

  predicate RowsInImage(img: Image, ys: seq<nat>)
  {
    forall k :: 0 <= k < |ys| ==> ys[k] < img.Height()
  }

  function RowsCommands(img: Image, ys: seq<nat>): seq<Command<int>>
    requires img.Valid() && RowsInImage(img, ys)
    decreases |ys|
  {
    if ys == [] then [] else RowCommands(img, ys[0]) + RowsCommands(img, ys[1..])
  }

  /** Comment, pen up, and a move to the origin at feed 2000. */
  function Header(penNibMm: real): seq<Command<int>>
  {
    [NibComment(penNibMm), PenUp, Move(0, 0, Some(2000))]
  }

  /** The program the generator is meant to produce: the header, the brackets of the maximal
      runs of every scanned row, and the return home. */
  function RasterProgram(img: Image, penNibMm: real, step: int): seq<Command<int>>
    requires img.Valid()
  {
    Header(penNibMm) + RowsCommands(img, ScannedRows(img.Height(), step)) + [ReturnHome]
  }

  lemma CellsAt(img: Image, y: nat, i: nat)
    requires img.Valid() && y < img.Height() && i < img.width
    ensures Cells(img, y)[i] == img.ink[y][ScanX(img.width, y, i)]
  {
  }

  /** The rest of the row after a run ending at `e`: lift at column of `e`, then the brackets
      of the following runs. */
  function CloseRun(cells: seq<bool>, y: nat, e: nat): seq<Command<int>>
    requires e < |cells| && Boundary(cells, e + 1)
  {
    [Move(ScanX(|cells|, y, e), y, None), PenUp] + Brackets(|cells|, y, RunsFrom(cells, e + 1))
  }

  /** With the pen up at a run boundary, the pen machine emits exactly the brackets of the
      maximal runs that follow. */
  lemma {:induction false} ScanUpMatchesRuns(cells: seq<bool>, y: nat, i: nat)
    requires i <= |cells| && (i == 0 || !cells[i - 1])
    ensures Boundary(cells, i)
    ensures ScanFrom(cells, y, i, false) == Brackets(|cells|, y, RunsFrom(cells, i))
    decreases |cells| - i, 2
  {
    if i < |cells| {
      if cells[i] {
        ScanUpAtInk(cells, y, i);
      } else {
        ScanUpMatchesRuns(cells, y, i + 1);
        RunsFromAtBlank(cells, i);
      }
    }
  }

  /** The pen-up case at an ink cell: the pen goes down here and the run is closed at its end. */
  lemma {:induction false} ScanUpAtInk(cells: seq<bool>, y: nat, i: nat)
    requires i < |cells| && cells[i]
    ensures ScanFrom(cells, y, i, false) == Brackets(|cells|, y, RunsFrom(cells, i))
    decreases |cells| - i, 1
  {
    PenDownAt(cells, y, i);
    BracketThenRest(cells, y, i);
  }

  /** At an ink cell with the pen up, the machine lowers the pen there and then closes the run. */
  lemma {:induction false} PenDownAt(cells: seq<bool>, y: nat, i: nat)
    requires i < |cells| && cells[i]
    ensures Boundary(cells, RunEnd(cells, i) + 1)
    ensures ScanFrom(cells, y, i, false)
         == [Move(ScanX(|cells|, y, i), y, None), PenDown] + CloseRun(cells, y, RunEnd(cells, i))
    decreases |cells| - i, 0
  {
    ScanDownMatchesRuns(cells, y, i + 1);
  }

  /** Lowering the pen at the start of a run and closing it is the run's bracket, followed by
      the brackets of the runs after it. */
  lemma BracketThenRest(cells: seq<bool>, y: nat, i: nat)
    requires i < |cells| && cells[i] && Boundary(cells, RunEnd(cells, i) + 1)
    ensures [Move(ScanX(|cells|, y, i), y, None), PenDown] + CloseRun(cells, y, RunEnd(cells, i))
         == Brackets(|cells|, y, RunsFrom(cells, i))
  {
    var e := RunEnd(cells, i);
    var rest := RunsFrom(cells, e + 1);
    var a := [Move(ScanX(|cells|, y, i), y, None), PenDown];
    var b := [Move(ScanX(|cells|, y, e), y, None), PenUp];
    assert CloseRun(cells, y, e) == b + Brackets(|cells|, y, rest);
    Assoc(a, b, Brackets(|cells|, y, rest));
    BracketsCons(|cells|, y, Run(i, e), rest);
    RunsFromAtRun(cells, i);
  }

  /** With the pen down inside a run (the previous cell is ink), the pen machine closes the
      run at its last pixel and then emits the brackets of the runs after it. */
  lemma {:induction false} ScanDownMatchesRuns(cells: seq<bool>, y: nat, i: nat)
    requires 1 <= i <= |cells| && cells[i - 1]
    ensures RunEnd(cells, i - 1) + 1 <= |cells|
    ensures Boundary(cells, RunEnd(cells, i - 1) + 1)
    ensures ScanFrom(cells, y, i, true) == CloseRun(cells, y, RunEnd(cells, i - 1))
    decreases |cells| - i, 0
  {
    if i < |cells| {
      if cells[i] {
        ScanDownMatchesRuns(cells, y, i + 1);
        RunEndStep(cells, i);
      } else {
        ScanUpMatchesRuns(cells, y, i + 1);
        assert RunEnd(cells, i - 1) == i - 1;
        assert LastX(ScanX(|cells|, y, i), y) == ScanX(|cells|, y, i - 1);
      }
    }
  }

  lemma Assoc<T>(a: seq<T>, b: seq<T>, c: seq<T>)
    ensures a + (b + c) == (a + b) + c
  {
  }

  lemma RunsFromAtRun(cells: seq<bool>, i: nat)
    requires i < |cells| && cells[i]
    ensures RunsFrom(cells, i) == [Run(i, RunEnd(cells, i))] + RunsFrom(cells, RunEnd(cells, i) + 1)
  {
  }

  lemma RunsFromAtBlank(cells: seq<bool>, i: nat)
    requires i < |cells| && !cells[i]
    ensures RunsFrom(cells, i) == RunsFrom(cells, i + 1)
  {
  }

  lemma BracketsCons(width: nat, y: nat, r: Run, rs: seq<Run>)
    requires r.first <= r.last < width && RunsWithin(width, rs)
    ensures RunsWithin(width, [r] + rs)
    ensures Brackets(width, y, [r] + rs) == RunBracket(width, y, r) + Brackets(width, y, rs)
  {
    assert ([r] + rs)[1..] == rs;
  }

  /** Inside a run, the run's end seen from position i - 1 is the one seen from i. */
  lemma RunEndStep(cells: seq<bool>, i: nat)
    requires 1 <= i < |cells| && cells[i - 1] && cells[i]
    ensures RunEnd(cells, i - 1) == RunEnd(cells, i)
  {
  }

  /** A whole row: the pen machine, started with the pen up, emits one bracket per maximal run. */
  lemma ScanMatchesRuns(img: Image, y: nat)
    requires img.Valid() && y < img.Height()
    ensures ScanFrom(Cells(img, y), y, 0, false) == RowCommands(img, y)
  {
    ScanUpMatchesRuns(Cells(img, y), y, 0);
  }

  lemma RowsFromUnfold(y: nat, height: nat, step: nat, next: nat)
    requires step > 0 && y < height && next == y + step
    ensures RowsFrom(y, height, step) == [y] + RowsFrom(next, height, step)
  {
  }

  /** Emitting row y moves the remaining rows forward by one step. */
  lemma RowsStep(img: Image, y: nat, step: nat, before: seq<Command<int>>, row: seq<Command<int>>,
                 target: seq<Command<int>>, after: seq<Command<int>>, next: nat)
    requires img.Valid() && step > 0 && y < img.Height() && row == RowCommands(img, y)
    requires RowsInImage(img, RowsFrom(y, img.Height(), step))
    requires before + RowsCommands(img, RowsFrom(y, img.Height(), step)) == target
    requires after == before + row && next == y + step
    ensures RowsInImage(img, RowsFrom(next, img.Height(), step))
    ensures after + RowsCommands(img, RowsFrom(next, img.Height(), step)) == target
  {
    var ys := RowsFrom(y, img.Height(), step);
    var later := RowsFrom(next, img.Height(), step);
    RowsFromUnfold(y, img.Height(), step, next);
    RowsCommandsCons(img, y, later);
    var rest := RowsCommands(img, later);
    assert target == before + (row + rest);
    Assoc(before, row, rest);
  }

  lemma RowsCommandsCons(img: Image, y: nat, ys: seq<nat>)
    requires img.Valid() && y < img.Height() && RowsInImage(img, ys)
    ensures RowsInImage(img, [y] + ys)
    ensures RowsCommands(img, [y] + ys) == RowCommands(img, y) + RowsCommands(img, ys)
  {
    assert ([y] + ys)[1..] == ys;
  }

  /** One column of the pen machine: the commands it emits at position i followed by the
      machine from i + 1 are the machine from i. */
  lemma ScanStep(cells: seq<bool>, y: nat, i: nat, down: bool, before: seq<Command<int>>,
                 target: seq<Command<int>>, after: seq<Command<int>>, nowDown: bool)
    requires i < |cells| && before + ScanFrom(cells, y, i, down) == target
    requires var x := ScanX(|cells|, y, i);
      if cells[i] && !down then after == before + [Move(x, y, None), PenDown] && nowDown
      else if !cells[i] && down then after == before + [Move(LastX(x, y), y, None), PenUp] && !nowDown
      else after == before && nowDown == down
    ensures after + ScanFrom(cells, y, i + 1, nowDown) == target
  {
    var x := ScanX(|cells|, y, i);
    if cells[i] && !down {
      Assoc(before, [Move(x, y, None), PenDown], ScanFrom(cells, y, i + 1, true));
    } else if !cells[i] && down {
      Assoc(before, [Move(LastX(x, y), y, None), PenUp], ScanFrom(cells, y, i + 1, false));
    }
  }

  /** The end of a row: an open run is closed at the row's last column. */
  lemma ScanEnd(cells: seq<bool>, y: nat, down: bool, before: seq<Command<int>>,
                target: seq<Command<int>>, after: seq<Command<int>>)
    requires before + ScanFrom(cells, y, |cells|, down) == target
    requires after == if down then before + [Move(EndOfRowX(|cells|, y), y, None), PenUp] else before
    ensures after == target
  {
  }

  /** Past the last row nothing remains to emit. */
  lemma RowsEnd(img: Image, y: nat, step: nat, body: seq<Command<int>>, target: seq<Command<int>>)
    requires img.Valid() && step > 0 && y >= img.Height()
    requires RowsInImage(img, RowsFrom(y, img.Height(), step))
    requires body + RowsCommands(img, RowsFrom(y, img.Height(), step)) == target
    ensures body == target
  {
  }

  /** One pass of the generator's row loop, as written: the columns in the row's scan
      direction, the pen state in a variable, and the lift at the end of the row. It emits
      one bracket per maximal ink run, in scan order. */
  method ScanRow(img: Image, y: nat) returns (out: seq<Command<int>>)
    requires img.Valid() && y < img.Height()
    ensures out == RowCommands(img, y)
  {
    ghost var cells := Cells(img, y);
    ghost var target := ScanFrom(cells, y, 0, false);
    var penIsDown := false;
    out := [];
    var i := 0;
    while i < img.width
      invariant i <= img.width == |cells|
      invariant out + ScanFrom(cells, y, i, penIsDown) == target
    {
      var x := if y % 2 == 0 then i else img.width - 1 - i;
      CellsAt(img, y, i);
      var isBlack := img.ink[y][x];
      ghost var before, wasDown := out, penIsDown;
      if isBlack && !penIsDown {
        out := out + [Move(x, y, None), PenDown];
        penIsDown := true;
      } else if !isBlack && penIsDown {
        var lastX := if y % 2 == 0 then x - 1 else x + 1;
        out := out + [Move(lastX, y, None), PenUp];
        penIsDown := false;
      }
      ScanStep(cells, y, i, wasDown, before, target, out, penIsDown);
      i := i + 1;
    }
    ghost var before := out;
    if penIsDown {
      var endOfRowX := if y % 2 == 0 then img.width - 1 else 0;
      out := out + [Move(endOfRowX, y, None), PenUp];
    }
    ScanEnd(cells, y, penIsDown, before, target, out);
    ScanMatchesRuns(img, y);
  }

  /** The generator's row loop, as written: rows `range(0, height, step)`, each scanned
      by `ScanRow`; a step that is not positive scans no row. */
  method ScanRows(img: Image, step: int) returns (body: seq<Command<int>>)
    requires img.Valid()
    ensures RowsInImage(img, ScannedRows(img.Height(), step))
    ensures body == RowsCommands(img, ScannedRows(img.Height(), step))
  {
    body := [];
    if step > 0 {
      ghost var target := RowsCommands(img, RowsFrom(0, img.Height(), step));
      var y: nat := 0;
      while y < img.Height()
        invariant RowsInImage(img, RowsFrom(y, img.Height(), step))
        invariant body + RowsCommands(img, RowsFrom(y, img.Height(), step)) == target
        decreases img.Height() - y
      {
        var row := ScanRow(img, y);
        ghost var before, at := body, y;
        body := body + row;
        y := y + step;
        RowsStep(img, at, step, before, row, target, body, y);
      }
      RowsEnd(img, y, step, body, target);
    }
  }

  /** The generator as written: the header, the row step from the nib width, the rows,
      and the return home. It produces exactly the header, one bracket per maximal ink run
      of each scanned row, and the return home. */
  method GenerateRasterGcode(img: Image, resolution: real, penNibMm: real) returns (gcode: seq<Command<int>>)
    requires img.Valid()
    ensures gcode == RasterProgram(img, penNibMm, YStep(penNibMm, resolution))
  {
    gcode := [NibComment(penNibMm)];
    gcode := gcode + [PenUp];
    gcode := gcode + [Move(0, 0, Some(2000))];
    var yStep := YStep(penNibMm, resolution);
    var body := ScanRows(img, yStep);
    gcode := gcode + body;
    gcode := gcode + [ReturnHome];
  }
}
