/**
 What the raster program draws. Traced with the shared pen semantics, the program lowers
 the pen once per stroke, never lowers or lifts it twice, and the strokes it draws are
 exactly the maximal horizontal ink runs of the rows `range(0, height, step)`, each drawn
 in its row's scan direction.
 */
module RasterPlot {
  import opened Wrappers
  import opened GCode
  import opened Runs
  import opened Raster

  /** Columns lo..hi of row y are ink, and the ink does not continue on either side. */
  predicate IsInkRun(img: Image, y: nat, lo: nat, hi: nat)
    requires img.Valid() && y < img.Height()
  {
    lo <= hi < img.width
    && (forall x :: lo <= x <= hi ==> img.ink[y][x])
    && (lo == 0 || !img.ink[y][lo - 1])
    && (hi + 1 == img.width || !img.ink[y][hi + 1])
  }

  /** The stroke over columns lo..hi of row y, drawn in the row's scan direction. */
  function Oriented(y: nat, lo: nat, hi: nat): seq<(int, int)>
  {
    if y % 2 == 0 then [(lo, y), (hi, y)] else [(hi, y), (lo, y)]
  }

  /** The image columns a run of scan positions covers, lowest first. */
  function Span(width: nat, y: nat, r: Run): (s: (nat, nat))
    requires r.first <= r.last < width
    ensures s.0 <= s.1 < width
  {
    if y % 2 == 0 then (r.first, r.last) else (width - 1 - r.last, width - 1 - r.first)
  }

  /** The polyline the bracket of run r traces: from its first pixel to its last, in scan order. */
  function Segment(width: nat, y: nat, r: Run): seq<(int, int)>
    requires r.first <= r.last < width
  {
    [(ScanX(width, y, r.first), y), (ScanX(width, y, r.last), y)]
  }

  function Segments(width: nat, y: nat, rs: seq<Run>): (segs: seq<seq<(int, int)>>)
    requires RunsWithin(width, rs)
    ensures |segs| == |rs|
  {
    seq(|rs|, j requires 0 <= j < |rs| => Segment(width, y, rs[j]))
  }

  /** The strokes of row y. */
  function RowSegments(img: Image, y: nat): seq<seq<(int, int)>>
    requires img.Valid() && y < img.Height()
  {
    Segments(img.width, y, MaximalRuns(Cells(img, y)))
  }

  /** The strokes of the rows ys, row after row. */
  function AllSegments(img: Image, ys: seq<nat>): seq<seq<(int, int)>>
    requires img.Valid() && RowsInImage(img, ys)
    decreases |ys|
  {
    if ys == [] then [] else RowSegments(img, ys[0]) + AllSegments(img, ys[1..])
  }

  // ---------------------------------------------------------------------------
  // Scan positions against image columns
  // ---------------------------------------------------------------------------

  /** Reading a row in scan order and mapping back is the identity: scan position i sits at
      column ScanX(i), and column x is read at scan position ScanX(x). */
  lemma ScanXInvolution(width: nat, y: nat, i: nat)
    requires i < width
    ensures ScanX(width, y, ScanX(width, y, i)) == i
  {
  }

  /** A run of scan positions is maximal in the scan-ordered row exactly when the columns it
      covers are a maximal ink run of the image row. */
  lemma MaximalRunIffInkRun(img: Image, y: nat, r: Run)
    requires img.Valid() && y < img.Height() && r.first <= r.last < img.width
    ensures MaximalRun(Cells(img, y), r) <==> IsInkRun(img, y, Span(img.width, y, r).0, Span(img.width, y, r).1)
  {
    if y % 2 == 0 {
      EvenRunIffInkRun(img, y, r);
    } else {
      OddRunIffInkRun(img, y, r);
    }
  }

  /** On an even row scan positions are columns. */
  lemma EvenRunIffInkRun(img: Image, y: nat, r: Run)
    requires img.Valid() && y < img.Height() && r.first <= r.last < img.width && y % 2 == 0
    ensures MaximalRun(Cells(img, y), r) <==> IsInkRun(img, y, r.first, r.last)
  {
    var cells := Cells(img, y);
    assert forall k :: 0 <= k < img.width ==> cells[k] == img.ink[y][k];
  }

  /** On an odd row scan position k is column width - 1 - k. */
  lemma OddRunIffInkRun(img: Image, y: nat, r: Run)
    requires img.Valid() && y < img.Height() && r.first <= r.last < img.width && y % 2 != 0
    ensures MaximalRun(Cells(img, y), r) <==> IsInkRun(img, y, img.width - 1 - r.last, img.width - 1 - r.first)
  {
    var cells := Cells(img, y);
    var w := img.width;
    var row := img.ink[y];
    var lo, hi := w - 1 - r.last, w - 1 - r.first;
    if r.last + 1 < w {
      assert cells[r.last + 1] == row[lo - 1];
    }
    if 0 < r.first {
      assert cells[r.first - 1] == row[hi + 1];
    }
    if forall k :: r.first <= k <= r.last ==> cells[k] {
      forall x | lo <= x <= hi ensures row[x]
      {
        assert cells[w - 1 - x] == row[x];
      }
    }
    if forall x :: lo <= x <= hi ==> row[x] {
      forall k | r.first <= k <= r.last ensures cells[k]
      {
        assert cells[k] == row[w - 1 - k];
      }
    }
  }

  /** Drawing row y over columns lo..hi is what the bracket of the matching scan run draws. */
  lemma SegmentIsOriented(width: nat, y: nat, r: Run)
    requires r.first <= r.last < width
    ensures Segment(width, y, r) == Oriented(y, Span(width, y, r).0, Span(width, y, r).1)
  {
  }

  /** The strokes of a row are exactly its maximal ink runs, each in the scan direction. */
  lemma RowSegmentsAreInkRuns(img: Image, y: nat)
    requires img.Valid() && y < img.Height()
    ensures forall seg :: seg in RowSegments(img, y) <==>
      exists lo: nat, hi: nat :: IsInkRun(img, y, lo, hi) && seg == Oriented(y, lo, hi)
  {
    RowSegmentsAreRuns(img, y);
    InkRunsAreRowSegments(img, y);
  }

  /** Every stroke of a row draws a maximal ink run. */
  lemma RowSegmentsAreRuns(img: Image, y: nat)
    requires img.Valid() && y < img.Height()
    ensures forall seg :: seg in RowSegments(img, y) ==>
      exists lo: nat, hi: nat :: IsInkRun(img, y, lo, hi) && seg == Oriented(y, lo, hi)
  {
    var cells := Cells(img, y);
    var w := img.width;
    var rs := MaximalRuns(cells);
    var segs := RowSegments(img, y);
    RunsFromMaximal(cells, 0);
    forall seg | seg in segs
      ensures exists lo: nat, hi: nat :: IsInkRun(img, y, lo, hi) && seg == Oriented(y, lo, hi)
    {
      var j :| 0 <= j < |segs| && segs[j] == seg;
      var r := rs[j];
      MaximalRunIffInkRun(img, y, r);
      SegmentIsOriented(w, y, r);
      var s := Span(w, y, r);
      assert IsInkRun(img, y, s.0, s.1) && seg == Oriented(y, s.0, s.1);
    }
  }

  /** Every maximal ink run of a row is drawn by one of its strokes. */
  lemma InkRunsAreRowSegments(img: Image, y: nat)
    requires img.Valid() && y < img.Height()
    ensures forall lo: nat, hi: nat :: IsInkRun(img, y, lo, hi) ==> Oriented(y, lo, hi) in RowSegments(img, y)
  {
    var cells := Cells(img, y);
    var w := img.width;
    var rs := MaximalRuns(cells);
    var segs := RowSegments(img, y);
    RunsFromComplete(cells, 0);
    forall lo: nat, hi: nat | IsInkRun(img, y, lo, hi)
      ensures Oriented(y, lo, hi) in segs
    {
      var r := if y % 2 == 0 then Run(lo, hi) else Run(w - 1 - hi, w - 1 - lo);
      assert Span(w, y, r) == (lo, hi);
      MaximalRunIffInkRun(img, y, r);
      SegmentIsOriented(w, y, r);
      assert r in rs;
      var j :| 0 <= j < |rs| && rs[j] == r;
      assert segs[j] == Oriented(y, lo, hi);
    }
  }

  /** A row draws nothing exactly when it holds no ink. */
  lemma BlankRowIffNoSegments(img: Image, y: nat)
    requires img.Valid() && y < img.Height()
    ensures RowSegments(img, y) == [] <==> forall x :: 0 <= x < img.width ==> !img.ink[y][x]
  {
    var cells := Cells(img, y);
    var w := img.width;
    NoRunsIffBlank(cells, 0);
    if forall k :: 0 <= k < w ==> !cells[k] {
      forall x | 0 <= x < w ensures !img.ink[y][x]
      {
        ScanXInvolution(w, y, x);
        assert !cells[ScanX(w, y, x)];
      }
    }
  }

  // ---------------------------------------------------------------------------
  // Tracing the program
  // ---------------------------------------------------------------------------

  /** The brackets of a row, started pen up with nothing open, draw one stroke per run and
      leave the pen up. */
  lemma {:induction false} TraceBrackets(width: nat, y: nat, rs: seq<Run>, t: Tracer<int>)
    requires RunsWithin(width, rs) && !t.down && t.open == []
    ensures !Trace(Brackets(width, y, rs), t, 0).down
    ensures Trace(Brackets(width, y, rs), t, 0).open == []
    ensures Trace(Brackets(width, y, rs), t, 0).drawn == t.drawn + Segments(width, y, rs)
    decreases |rs|
  {
    if rs == [] {
      assert Segments(width, y, rs) == [];
    } else {
      var b := RunBracket(width, y, rs[0]);
      var rest := Brackets(width, y, rs[1..]);
      TraceAppend(b, rest, t, 0);
      var t1 := Trace(b, t, 0);
      TraceBracket(width, y, rs[0], t);
      TraceBrackets(width, y, rs[1..], t1);
      assert Brackets(width, y, rs) == b + rest;
      assert Segments(width, y, rs) == [Segment(width, y, rs[0])] + Segments(width, y, rs[1..]);
      Assoc(t.drawn, [Segment(width, y, rs[0])], Segments(width, y, rs[1..]));
    }
  }

  /** One bracket draws its run's segment. */
  lemma TraceBracket(width: nat, y: nat, r: Run, t: Tracer<int>)
    requires r.first <= r.last < width && !t.down && t.open == []
    ensures Trace(RunBracket(width, y, r), t, 0)
         == t.(pos := (ScanX(width, y, r.last), y), drawn := t.drawn + [Segment(width, y, r)])
  {
    var b := RunBracket(width, y, r);
    var p, q := (ScanX(width, y, r.first), y), (ScanX(width, y, r.last), y);
    var t1 := t.(pos := p);
    var t2 := t1.(down := true, open := [p]);
    var t3 := t2.(pos := q, open := [p, q]);
    var t4 := t3.(down := false, open := [], drawn := t.drawn + [[p, q]]);
    assert b[1..] == [PenDown, Move(q.0, y, None), PenUp];
    assert b[1..][1..] == [Move(q.0, y, None), PenUp];
    assert b[1..][1..][1..] == [PenUp];
    assert b[1..][1..][1..][1..] == [];
    assert [p] + [q] == [p, q];
    calc {
      Trace(b, t, 0);
      Trace(b[1..], t1, 0);
      Trace(b[1..][1..], t2, 0);
      Trace(b[1..][1..][1..], t3, 0);
      Trace(b[1..][1..][1..][1..], t4, 0);
      t4;
    }
  }

  /** One row's commands draw that row's strokes. */
  lemma TraceRow(img: Image, y: nat, t: Tracer<int>)
    requires img.Valid() && y < img.Height() && !t.down && t.open == []
    ensures !Trace(RowCommands(img, y), t, 0).down
    ensures Trace(RowCommands(img, y), t, 0).open == []
    ensures Trace(RowCommands(img, y), t, 0).drawn == t.drawn + RowSegments(img, y)
  {
    TraceBrackets(img.width, y, MaximalRuns(Cells(img, y)), t);
  }

  /** The rows' commands draw the rows' strokes, row after row, and leave the pen up. */
  lemma {:induction false} TraceRows(img: Image, ys: seq<nat>, t: Tracer<int>)
    requires img.Valid() && RowsInImage(img, ys) && !t.down && t.open == []
    ensures !Trace(RowsCommands(img, ys), t, 0).down
    ensures Trace(RowsCommands(img, ys), t, 0).open == []
    ensures Trace(RowsCommands(img, ys), t, 0).drawn == t.drawn + AllSegments(img, ys)
    decreases |ys|
  {
    if ys != [] {
      var row := RowCommands(img, ys[0]);
      var rest := RowsCommands(img, ys[1..]);
      var segs := RowSegments(img, ys[0]);
      assert RowsCommands(img, ys) == row + rest;
      assert AllSegments(img, ys) == segs + AllSegments(img, ys[1..]);
      TraceRow(img, ys[0], t);
      TraceRows(img, ys[1..], Trace(row, t, 0));
      TraceSequence(row, rest, t, 0, segs, AllSegments(img, ys[1..]));
    }
  }

  /** The whole raster program, traced from rest, ends at the origin with the pen up and has
      drawn the strokes of the scanned rows, in order. */
  lemma TraceRasterProgram(img: Image, penNibMm: real, step: int)
    requires img.Valid()
    ensures Trace(RasterProgram(img, penNibMm, step), AtRest(0), 0)
         == Tracer((0, 0), false, [], AllSegments(img, ScannedRows(img.Height(), step)))
  {
    var body := RowsCommands(img, ScannedRows(img.Height(), step));
    var h := Header(penNibMm);
    var t0 := AtRest(0);
    TraceAppend(h + body, [ReturnHome], t0, 0);
    TraceAppend(h, body, t0, 0);
    HeaderShape(penNibMm);
    TraceRows(img, ScannedRows(img.Height(), step), t0);
  }

  // ---------------------------------------------------------------------------
  // Which rows are scanned
  // ---------------------------------------------------------------------------

  lemma MulBound(d: int, b: int)
    requires b > 0 && -b < d * b < b
    ensures d == 0
  {
  }

  /** Euclidean division is unique. */
  lemma ModUnique(a: int, b: int, q: int, r: int)
    requires b > 0 && 0 <= r < b && a == q * b + r
    ensures a % b == r
  {
    var q0, r0 := a / b, a % b;
    assert a == q0 * b + r0;
    assert (q - q0) * b == r0 - r;
    MulBound(q - q0, b);
  }

  lemma ModStep(a: int, b: int)
    requires b > 0
    ensures (a + b) % b == a % b
  {
    ModUnique(a + b, b, a / b + 1, a % b);
  }

  lemma ModBelow(a: int, b: int)
    requires 0 < a < b
    ensures a % b != 0
  {
    ModUnique(a, b, 0, a);
  }

  /** `RowsFrom(y, height, step)` holds the rows y + k*step below height. */
  lemma {:induction false} RowsFromMembers(y: nat, height: nat, step: nat)
    requires step > 0
    ensures forall z: nat :: z in RowsFrom(y, height, step) <==> y <= z < height && (z - y) % step == 0
    decreases height - y
  {
    if y < height {
      RowsFromMembers(y + step, height, step);
      RowsFromUnfold(y, height, step, y + step);
      forall z: nat
        ensures z in RowsFrom(y, height, step) <==> y <= z < height && (z - y) % step == 0
      {
        RowMember(y, z, step);
      }
    }
  }

  /** z is y or lies a whole number of steps beyond y + step, or neither. */
  lemma RowMember(y: nat, z: nat, step: nat)
    requires step > 0
    ensures (y <= z && (z - y) % step == 0) <==> (z == y || (y + step <= z && (z - (y + step)) % step == 0))
  {
    ModStep(z - (y + step), step);
    assert z - (y + step) + step == z - y;
    if y < z < y + step {
      ModBelow(z - y, step);
    }
  }

  /** The rows `range(0, height, step)` visits: the multiples of a positive step below the
      height, and none when the step is not positive. */
  lemma ScannedRowsMembers(height: nat, step: int)
    ensures forall y: nat :: y in ScannedRows(height, step) <==> 0 < step && y < height && y % step == 0
  {
    if step > 0 {
      RowsFromMembers(0, height, step);
    }
  }

  /** Scanned rows ascend strictly. */
  lemma {:induction false} RowsFromAscending(y: nat, height: nat, step: nat)
    requires step > 0
    ensures forall j, k :: 0 <= j < k < |RowsFrom(y, height, step)| ==>
      RowsFrom(y, height, step)[j] < RowsFrom(y, height, step)[k]
    decreases height - y
  {
    if y < height {
      RowsFromAscending(y + step, height, step);
    }
  }

  // ---------------------------------------------------------------------------
  // Pen discipline
  // ---------------------------------------------------------------------------

  /** Brackets alternate pen down and pen up, with one pen-down per run. */
  lemma {:induction false} BracketsAlternate(width: nat, y: nat, rs: seq<Run>)
    requires RunsWithin(width, rs)
    ensures Alternates(Brackets(width, y, rs), false)
    ensures CountPenDowns(Brackets(width, y, rs)) == |rs|
    decreases |rs|
  {
    if rs != [] {
      var b := RunBracket(width, y, rs[0]);
      BracketsAlternate(width, y, rs[1..]);
      BracketShape(width, y, rs[0]);
      AlternatesAppend(b, Brackets(width, y, rs[1..]), false);
      CountPenDownsAppend(b, Brackets(width, y, rs[1..]));
    }
  }

  /** A single bracket lowers the pen once and lifts it again. */
  lemma BracketShape(width: nat, y: nat, r: Run)
    requires r.first <= r.last < width
    ensures Alternates(RunBracket(width, y, r), false)
    ensures CountPenDowns(RunBracket(width, y, r)) == 1
  {
    var b := RunBracket(width, y, r);
    var q := ScanX(width, y, r.last);
    assert b[1..] == [PenDown, Move(q, y, None), PenUp];
    assert b[1..][1..] == [Move(q, y, None), PenUp];
    assert b[1..][1..][1..] == [PenUp];
    assert b[1..][1..][1..][1..] == [];
    assert Alternates(b[1..][1..][1..], true);
    assert Alternates(b[1..][1..], true);
    assert Alternates(b[1..], false);
    assert CountPenDowns(b[1..][1..][1..]) == 0;
    assert CountPenDowns(b[1..][1..]) == 0;
    assert CountPenDowns(b[1..]) == 1;
  }

  /** The header neither lowers the pen nor leaves the origin. */
  lemma HeaderShape(penNibMm: real)
    ensures CountPenDowns(Header(penNibMm)) == 0
    ensures Trace(Header(penNibMm), AtRest(0), 0) == AtRest(0)
  {
    var h := Header(penNibMm);
    assert h[1..] == [PenUp, Move(0, 0, Some(2000))];
    assert h[1..][1..] == [Move(0, 0, Some(2000))];
    assert h[1..][1..][1..] == [];
    assert CountPenDowns(h[1..][1..]) == 0;
    assert CountPenDowns(h[1..]) == 0;
    assert Trace(h[1..][1..], AtRest(0), 0) == AtRest(0);
    assert Trace(h[1..], AtRest(0), 0) == AtRest(0);
  }

  /** The row commands alternate, with one pen-down per drawn stroke. */
  lemma {:induction false} RowsAlternate(img: Image, ys: seq<nat>)
    requires img.Valid() && RowsInImage(img, ys)
    ensures Alternates(RowsCommands(img, ys), false)
    ensures CountPenDowns(RowsCommands(img, ys)) == |AllSegments(img, ys)|
    decreases |ys|
  {
    if ys != [] {
      var row := RowCommands(img, ys[0]);
      BracketsAlternate(img.width, ys[0], MaximalRuns(Cells(img, ys[0])));
      RowsAlternate(img, ys[1..]);
      AlternatesAppend(row, RowsCommands(img, ys[1..]), false);
      CountPenDownsAppend(row, RowsCommands(img, ys[1..]));
    }
  }

  // ---------------------------------------------------------------------------
  // The generator's promises
  // ---------------------------------------------------------------------------

  /** The strokes of rows ys are the maximal ink runs of those rows. */
  lemma {:induction false} AllSegmentsAreInkRuns(img: Image, ys: seq<nat>)
    requires img.Valid() && RowsInImage(img, ys)
    ensures forall seg :: seg in AllSegments(img, ys) <==>
      exists y: nat, lo: nat, hi: nat :: y in ys && y < img.Height() && IsInkRun(img, y, lo, hi) && seg == Oriented(y, lo, hi)
    decreases |ys|
  {
    if ys != [] {
      AllSegmentsAreInkRuns(img, ys[1..]);
      RowSegmentsAreInkRuns(img, ys[0]);
      forall seg
        ensures seg in AllSegments(img, ys) <==>
          exists y: nat, lo: nat, hi: nat :: y in ys && y < img.Height() && IsInkRun(img, y, lo, hi) && seg == Oriented(y, lo, hi)
      {
        if exists y: nat, lo: nat, hi: nat :: y in ys && y < img.Height() && IsInkRun(img, y, lo, hi) && seg == Oriented(y, lo, hi) {
          var y: nat, lo: nat, hi: nat :| y in ys && y < img.Height() && IsInkRun(img, y, lo, hi) && seg == Oriented(y, lo, hi);
          if y != ys[0] {
            assert y in ys[1..];
          }
        }
      }
    }
  }

  /** Everything the raster program draws, from rest: it ends at the origin with the pen up,
      pen commands alternate after the header's initial lift, it lowers the pen once per
      stroke, and a stroke is drawn exactly when it covers a maximal ink run of a row
      `range(0, height, step)` visits, in that row's scan direction. */
  lemma RasterDrawsInkRuns(img: Image, penNibMm: real, step: int)
    requires img.Valid()
    ensures var end := Trace(RasterProgram(img, penNibMm, step), AtRest(0), 0);
      end.pos == (0, 0) && !end.down
      && Alternates(RasterProgram(img, penNibMm, step)[2..], false)
      && CountPenDowns(RasterProgram(img, penNibMm, step)) == |end.drawn|
      && forall seg :: seg in end.drawn <==>
           exists y: nat, lo: nat, hi: nat :: 0 < step && y < img.Height() && y % step == 0
             && IsInkRun(img, y, lo, hi) && seg == Oriented(y, lo, hi)
  {
    var rows := ScannedRows(img.Height(), step);
    var prog := RasterProgram(img, penNibMm, step);
    var body := RowsCommands(img, rows);
    TraceRasterProgram(img, penNibMm, step);
    ScannedRowsMembers(img.Height(), step);
    AllSegmentsAreInkRuns(img, rows);
    RowsAlternate(img, rows);
    PenDiscipline(penNibMm, body);
  }

  /** Wrapping an alternating body in the header and the return home keeps it alternating
      after the header's initial lift, and adds no pen-down. */
  lemma PenDiscipline(penNibMm: real, body: seq<Command<int>>)
    requires Alternates(body, false)
    ensures Alternates((Header(penNibMm) + body + [ReturnHome])[2..], false)
    ensures CountPenDowns(Header(penNibMm) + body + [ReturnHome]) == CountPenDowns(body)
  {
    var h := Header(penNibMm);
    var home: seq<Command<int>> := [ReturnHome];
    var origin: seq<Command<int>> := [Move(0, 0, Some(2000))];
    assert (h + body + home)[2..] == origin + (body + home);
    assert Alternates(home, false);
    assert Alternates(origin, false);
    AlternatesAppend(body, home, false);
    AlternatesAppend(origin, body + home, false);
    CountPenDownsAppend(h, body);
    CountPenDownsAppend(h + body, home);
    HeaderShape(penNibMm);
    assert CountPenDowns(home) == 0;
  }

  /** The program is just the header and the return home exactly when no scanned row holds ink. */
  lemma BlankImageIffEmptyBody(img: Image, penNibMm: real, step: int)
    requires img.Valid()
    ensures |RasterProgram(img, penNibMm, step)| == 4 <==>
      forall y: nat, x: nat :: 0 < step && y < img.Height() && y % step == 0 && x < img.width ==> !img.ink[y][x]
  {
    var rows := ScannedRows(img.Height(), step);
    ScannedRowsMembers(img.Height(), step);
    BlankRowsIffEmpty(img, rows);
  }

  lemma {:induction false} BlankRowsIffEmpty(img: Image, ys: seq<nat>)
    requires img.Valid() && RowsInImage(img, ys)
    ensures RowsCommands(img, ys) == [] <==>
      forall y: nat, x: nat :: y in ys && y < img.Height() && x < img.width ==> !img.ink[y][x]
    decreases |ys|
  {
    if ys != [] {
      var y0 := ys[0];
      BlankRowsIffEmpty(img, ys[1..]);
      BlankRowIffNoSegments(img, y0);
      BracketsLength(img.width, y0, MaximalRuns(Cells(img, y0)));
      forall y: nat | y in ys ensures y == y0 || y in ys[1..] {
        if y != y0 {
          var k :| 0 <= k < |ys| && ys[k] == y;
          assert ys[1..][k - 1] == y;
        }
      }
    }
  }

  lemma {:induction false} BracketsLength(width: nat, y: nat, rs: seq<Run>)
    requires RunsWithin(width, rs)
    ensures |Brackets(width, y, rs)| == 4 * |rs|
    decreases |rs|
  {
    if rs != [] {
      BracketsLength(width, y, rs[1..]);
    }
  }
}
