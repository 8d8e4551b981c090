/**
 A generated program played back in the simulator. Each command is written as the line the
 generators emit; the simulator's loader reads the lines back; the loaded commands are played
 from a reset that also lifts the pen. The simulator then ends where the plotter ends, with the
 pen where the plotter leaves it, and the segments it has drawn are the edges of the polylines
 the program draws, in drawing order.
 */
module Replay {
  import opened Wrappers
  import opened GCode
  import opened GcodeParser
  import opened Playback

  // ---------------------------------------------------------------------------
  // Writing the lines
  // ---------------------------------------------------------------------------

  /** Coordinates are written as number tokens, `text(c)`, that read back as `value(c)`. */
  ghost predicate Writes<C(!new)>(text: C -> string, value: C -> real)
  {
    forall c :: IsToken(text(c)) && ParseFloat(text(c)) == Ok(value(c))
  }

  const NibPrefix := "; Generated with pen nib size: "
  const HomeLine := "G1 X0 Y0 ; Return to home"

  /** The line a command is written as; `nib` writes the nib size as Python's `str` does. */
  function Render<C>(c: Command<C>, text: C -> string, nib: real -> string): string
  {
    match c
    case NibComment(n) => NibPrefix + nib(n) + "mm"
    case Comment(t) => "; " + t
    case PenDown => "M3 ; Pen Down"
    case PenUp => "M5 ; Pen Up"
    case Move(x, y, None) => "G1 X" + text(x) + " Y" + text(y)
    case Move(x, y, Some(f)) => "G1 X" + text(x) + " Y" + text(y) + (" F" + NaturalText(f))
    case ReturnHome => HomeLine
  }

  function Lines<C>(cmds: seq<Command<C>>, text: C -> string, nib: real -> string): (lines: seq<string>)
    ensures |lines| == |cmds| && forall i :: 0 <= i < |cmds| ==> lines[i] == Render(cmds[i], text, nib)
  {
    seq(|cmds|, i requires 0 <= i < |cmds| => Render(cmds[i], text, nib))
  }

  /** The comment lines, which the loader skips. */
  predicate Silent<C>(c: Command<C>)
  {
    c.NibComment? || c.Comment?
  }

  /** What the loader should make of one command: nothing for a comment; otherwise a command
      of the right type carrying the coordinates and the feed it was written with. */
  predicate Denotes<C>(c: Command<C>, p: Option<Parsed>, value: C -> real)
  {
    match c
    case NibComment(_) => p.None?
    case Comment(_) => p.None?
    case PenDown => p.Some? && p.value.kind == M3
    case PenUp => p.Some? && p.value.kind == M5
    case Move(x, y, feed) =>
      p.Some? && p.value.kind == G(1) && p.value.x == Some(value(x)) && p.value.y == Some(value(y))
      && p.value.f == (if feed.Some? then Some(feed.value as real) else None)
    case ReturnHome =>
      p.Some? && p.value.kind == G(1) && p.value.x == Some(0.0) && p.value.y == Some(0.0) && p.value.f.None?
  }

  /** `ps` is what the loader should make of `cmds`, command by command. */
  predicate DenotesAll<C>(cmds: seq<Command<C>>, ps: seq<Parsed>, value: C -> real)
    decreases |cmds|
  {
    if cmds == [] then ps == []
    else if Silent(cmds[0]) then DenotesAll(cmds[1..], ps, value)
    else ps != [] && Denotes(cmds[0], Some(ps[0]), value) && DenotesAll(cmds[1..], ps[1..], value)
  }

  // ---------------------------------------------------------------------------
  // Reading them back
  // ---------------------------------------------------------------------------

  lemma MoveLineKept(s: string, tx: string, ty: string, tail: string)
    requires IsToken(tx) && IsToken(ty) && NoLowerCase(tail)
    requires s == "G1 X" + tx + " Y" + ty + tail
    requires tail == [] || !IsSpace(tail[|tail| - 1])
    ensures Normalize(s) == s && s[0] == 'G'
  {
    TokenHasNoLowerCase(tx);
    TokenHasNoLowerCase(ty);
    NoLowerCaseConcat("G1 X", tx);
    NoLowerCaseConcat("G1 X" + tx, " Y");
    NoLowerCaseConcat("G1 X" + tx + " Y", ty);
    NoLowerCaseConcat("G1 X" + tx + " Y" + ty, tail);
    if tail == [] {
      assert s[|s| - 1] == ty[|ty| - 1];
    } else {
      assert s[|s| - 1] == tail[|tail| - 1];
    }
    NormalizeKeeps(s);
  }

  /** `G1 X<x> Y<y>` reads as a `G1` to the two values. */
  lemma MoveLineReads(tx: string, ty: string, vx: real, vy: real)
    requires IsToken(tx) && IsToken(ty) && ParseFloat(tx) == Ok(vx) && ParseFloat(ty) == Ok(vy)
    ensures var s := "G1 X" + tx + " Y" + ty;
      ParseLine(s) == Ok(Some(Parsed(s, G(1), Some(vx), Some(vy), None, None, None)))
  {
    var s := "G1 X" + tx + " Y" + ty;
    assert s == "G1 X" + tx + " Y" + ty + "";
    MoveLineKept(s, tx, ty, "");
    MatchMove(tx, ty);
    FieldReads(tx, vx);
    FieldReads(ty, vy);
    ReadsGLine(s, GMatch(1, Some(tx), Some(ty), None, None, None));
  }

  /** `G1 X<x> Y<y> F<f>` reads as a `G1` to the three values. */
  lemma FeedLineReads(tx: string, ty: string, tf: string, vx: real, vy: real, vf: real)
    requires IsToken(tx) && IsToken(ty) && ParseFloat(tx) == Ok(vx) && ParseFloat(ty) == Ok(vy)
    requires IsToken(tf) && ParseFloat(tf) == Ok(vf)
    ensures var s := "G1 X" + tx + " Y" + ty + (" F" + tf);
      ParseLine(s) == Ok(Some(Parsed(s, G(1), Some(vx), Some(vy), None, None, Some(vf))))
  {
    var s := "G1 X" + tx + " Y" + ty + (" F" + tf);
    var m := GMatch(1, Some(tx), Some(ty), None, None, Some(tf));
    FeedLineKept(tx, ty, tf);
    MatchFeedMove(tx, ty, tf);
    ConvertFields(s, m, vx, vy, vf);
    ReadsGLine(s, m);
  }

  lemma FeedLineKept(tx: string, ty: string, tf: string)
    requires IsToken(tx) && IsToken(ty) && IsToken(tf)
    ensures var s := "G1 X" + tx + " Y" + ty + (" F" + tf);
      Normalize(s) == s && s[0] == 'G'
  {
    TokenHasNoLowerCase(tf);
    NoLowerCaseConcat(" F", tf);
    assert (" F" + tf)[|" F" + tf| - 1] == tf[|tf| - 1];
    MoveLineKept("G1 X" + tx + " Y" + ty + (" F" + tf), tx, ty, " F" + tf);
  }

  /** A `G1` match whose X, Y and feed tokens read as vx, vy and vf converts to a `G1` to
      them (without feed when there is no feed token). */
  lemma ConvertFields(s: string, m: GMatch, vx: real, vy: real, vf: real)
    requires m.code == 1 && m.x.Some? && m.y.Some? && m.i.None? && m.j.None?
    requires ParseFloat(m.x.value) == Ok(vx) && ParseFloat(m.y.value) == Ok(vy)
    requires m.f.Some? ==> ParseFloat(m.f.value) == Ok(vf)
    ensures ConvertMatch(s, m) == Ok(Parsed(s, G(1), Some(vx), Some(vy), None, None, if m.f.Some? then Some(vf) else None))
  {
    FieldReads(m.x.value, vx);
    FieldReads(m.y.value, vy);
    if m.f.Some? {
      FieldReads(m.f.value, vf);
    }
  }

  /** `G1 X<x> Y<y> ;<comment>`, upper-case and not ending in white space, reads as a `G1` to
      the two values without feed. */
  lemma CommentedMoveLineReads(tx: string, ty: string, comment: string, vx: real, vy: real)
    requires IsToken(tx) && IsToken(ty) && ParseFloat(tx) == Ok(vx) && ParseFloat(ty) == Ok(vy)
    requires NoLowerCase(comment) && comment != [] && !IsSpace(comment[|comment| - 1])
    ensures var s := "G1 X" + tx + " Y" + ty + (" ;" + comment);
      Normalize(s) == s && ParseLine(s) == Ok(Some(Parsed(s, G(1), Some(vx), Some(vy), None, None, None)))
  {
    var s := "G1 X" + tx + " Y" + ty + (" ;" + comment);
    var m := GMatch(1, Some(tx), Some(ty), None, None, None);
    CommentedLineKept(tx, ty, comment);
    MatchCommentedMove(tx, ty, comment);
    ConvertFields(s, m, vx, vy, 0.0);
    ReadsGLine(s, m);
  }

  lemma CommentedLineKept(tx: string, ty: string, comment: string)
    requires IsToken(tx) && IsToken(ty)
    requires NoLowerCase(comment) && comment != [] && !IsSpace(comment[|comment| - 1])
    ensures var s := "G1 X" + tx + " Y" + ty + (" ;" + comment);
      Normalize(s) == s && s[0] == 'G'
  {
    NoLowerCaseConcat(" ;", comment);
    assert (" ;" + comment)[|" ;" + comment| - 1] == comment[|comment| - 1];
    MoveLineKept("G1 X" + tx + " Y" + ty + (" ;" + comment), tx, ty, " ;" + comment);
  }

  /** Stripping and upper-casing the return-home line. */
  lemma HomeLineNormalized()
    ensures Normalize(HomeLine) == "G1 X0 Y0 ; RETURN TO HOME"
  {
    StripKeeps(HomeLine);
  }

  lemma HomeLineShape()
    ensures "G1 X0 Y0 ; RETURN TO HOME" == "G1 X" + "0" + " Y" + "0" + (" ;" + " RETURN TO HOME")
    ensures NoLowerCase(" RETURN TO HOME")
  {
  }

  lemma ZeroReads()
    ensures IsToken("0") && ParseFloat("0") == Ok(0.0)
  {
    NaturalTextReads(0);
    assert NaturalText(0) == "0";
  }

  /** The return-home line reads as a `G1` to the origin without feed. */
  lemma HomeLineReads()
    ensures var s := "G1 X0 Y0 ; RETURN TO HOME";
      ParseLine(HomeLine) == Ok(Some(Parsed(s, G(1), Some(0.0), Some(0.0), None, None, None)))
  {
    var s := "G1 X0 Y0 ; RETURN TO HOME";
    HomeLineNormalized();
    ZeroReads();
    HomeLineShape();
    CommentedMoveLineReads("0", "0", " RETURN TO HOME", 0.0, 0.0);
    assert ParseLine(HomeLine) == ParseNormalized(Normalize(HomeLine));
    assert ParseLine(s) == ParseNormalized(Normalize(s));
  }

  /** Every line a command is written as reads back as what the command denotes. */
  lemma RenderReads<C(!new)>(c: Command<C>, text: C -> string, value: C -> real, nib: real -> string)
    requires Writes(text, value)
    ensures ParseLine(Render(c, text, nib)).Ok? && Denotes(c, ParseLine(Render(c, text, nib)).value, value)
  {
    match c
    case NibComment(n) =>
      CommentLineSkipped(Render(c, text, nib));
    case Comment(t) =>
      CommentLineSkipped(Render(c, text, nib));
    case PenDown =>
      PenLines();
    case PenUp =>
      PenLines();
    case Move(x, y, None) =>
      MoveLineReads(text(x), text(y), value(x), value(y));
    case Move(x, y, Some(f)) =>
      NaturalTextReads(f);
      FeedLineReads(text(x), text(y), NaturalText(f), value(x), value(y), f as real);
    case ReturnHome =>
      HomeLineReads();
  }

  /** The whole program loads without error, as what its commands denote. */
  lemma {:induction false} LinesRead<C(!new)>(cmds: seq<Command<C>>, text: C -> string, value: C -> real, nib: real -> string)
    requires Writes(text, value)
    ensures ParseGcode(Lines(cmds, text, nib)).Ok?
    ensures DenotesAll(cmds, ParseGcode(Lines(cmds, text, nib)).value, value)
    decreases |cmds|
  {
    var lines := Lines(cmds, text, nib);
    if cmds == [] {
      assert LineResults(lines) == [];
    } else {
      assert lines[1..] == Lines(cmds[1..], text, nib);
      ParseGcodeCons(lines);
      RenderReads(cmds[0], text, value, nib);
      LinesRead(cmds[1..], text, value, nib);
      var rest := ParseGcode(lines[1..]).value;
      var c := ParseLine(lines[0]).value;
      if Silent(cmds[0]) {
        assert ParseGcode(lines) == Resume([], ParseGcode(lines[1..]));
        ResumeNothing(ParseGcode(lines[1..]));
      } else {
        assert ParseGcode(lines) == Ok([c.value] + rest);
        assert ([c.value] + rest)[1..] == rest;
      }
    }
  }

  // ---------------------------------------------------------------------------
  // Playing them
  // ---------------------------------------------------------------------------

  type Segment = (Point, Point)

  function Place<C>(p: (C, C), value: C -> real): Point
  {
    (value(p.0), value(p.1))
  }

  function PlacePolyline<C>(poly: seq<(C, C)>, value: C -> real): (pts: seq<Point>)
    ensures |pts| == |poly| && forall i :: 0 <= i < |poly| ==> pts[i] == Place(poly[i], value)
  {
    seq(|poly|, i requires 0 <= i < |poly| => Place(poly[i], value))
  }

  function PlaceAll<C>(polys: seq<seq<(C, C)>>, value: C -> real): (placed: seq<seq<Point>>)
    ensures |placed| == |polys| && forall i :: 0 <= i < |polys| ==> placed[i] == PlacePolyline(polys[i], value)
  {
    seq(|polys|, i requires 0 <= i < |polys| => PlacePolyline(polys[i], value))
  }

  /** The straight segments between consecutive points of a polyline. */
  function Edges(poly: seq<Point>): (es: seq<Segment>)
    ensures |es| == if |poly| < 2 then 0 else |poly| - 1
    decreases |poly|
  {
    if |poly| < 2 then [] else Edges(poly[..|poly| - 1]) + [(poly[|poly| - 2], poly[|poly| - 1])]
  }

  /** The segments of several polylines, one polyline after the other. */
  function AllEdges(polys: seq<seq<Point>>): seq<Segment>
    decreases |polys|
  {
    if polys == [] then [] else AllEdges(polys[..|polys| - 1]) + Edges(polys[|polys| - 1])
  }

  /** What a plotter state has drawn so far, as canvas segments: the finished polylines,
      then the one being drawn. */
  function Sketch<C>(t: Tracer<C>, value: C -> real): seq<Segment>
  {
    AllEdges(PlaceAll(t.drawn, value)) + Edges(PlacePolyline(t.open, value))
  }

  /** The simulator shows plotter state `t`: same pen, same head position, the segments
      drawn so far; and the polyline being drawn ends at the head while the pen is down. */
  predicate Sync<C>(s: Sim, t: Tracer<C>, value: C -> real)
  {
    s.penDown == t.down && s.pos == Place(t.pos, value) && s.segments == Sketch(t, value)
    && (if t.down then t.open != [] && Place(t.open[|t.open| - 1], value) == s.pos else t.open == [])
  }

  lemma EdgesSnoc(poly: seq<Point>, p: Point)
    requires poly != []
    ensures Edges(poly + [p]) == Edges(poly) + [(poly[|poly| - 1], p)]
  {
    assert (poly + [p])[..|poly|] == poly;
  }

  lemma AllEdgesSnoc(polys: seq<seq<Point>>, poly: seq<Point>)
    ensures AllEdges(polys + [poly]) == AllEdges(polys) + Edges(poly)
  {
    assert (polys + [poly])[..|polys|] == polys;
  }

  /** With the pen down, the polyline being drawn grows by the target, and the canvas by
      the segment to it. */
  lemma DrawingMove<C>(t: Tracer<C>, q: (C, C), value: C -> real)
    requires t.down && t.open != []
    ensures Sketch(MoveTo(t, q), value) == Sketch(t, value) + [(Place(t.open[|t.open| - 1], value), Place(q, value))]
  {
    var placed := PlacePolyline(t.open, value);
    assert PlacePolyline(t.open + [q], value) == placed + [Place(q, value)];
    EdgesSnoc(placed, Place(q, value));
  }

  /** A move to `q` keeps the simulator in step with the plotter. */
  lemma MoveSync<C>(s: Sim, t: Tracer<C>, q: (C, C), p: Parsed, value: C -> real)
    requires Sync(s, t, value)
    requires p.kind == G(1) && p.x == Some(value(q.0)) && p.y == Some(value(q.1))
    ensures Step(s, p).Ok? && Sync(Step(s, p).value, MoveTo(t, q), value)
  {
    assert IsLinearMove(p.kind);
    var s1 := Step(s, p).value;
    var t1 := MoveTo(t, q);
    assert s1.pos == Place(q, value) && s1.penDown == s.penDown;
    if t.down {
      assert s1.segments == s.segments + [(s.pos, s1.pos)];
      DrawingMove(t, q, value);
      assert t1.open == t.open + [q];
    } else {
      assert s1.segments == s.segments;
      assert t1 == t.(pos := q);
    }
  }

  lemma PenDownSync<C>(s: Sim, t: Tracer<C>, p: Parsed, value: C -> real, home: C)
    requires Sync(s, t, value) && p.kind == M3
    ensures Step(s, p).Ok? && Sync(Step(s, p).value, TraceStep(t, PenDown, home), value)
  {
    if !t.down {
      assert Edges(PlacePolyline([t.pos], value)) == [];
    }
  }

  lemma PenUpSync<C>(s: Sim, t: Tracer<C>, p: Parsed, value: C -> real, home: C)
    requires Sync(s, t, value) && p.kind == M5
    ensures Step(s, p).Ok? && Sync(Step(s, p).value, TraceStep(t, PenUp, home), value)
  {
    if t.down {
      assert PlaceAll(t.drawn + [t.open], value) == PlaceAll(t.drawn, value) + [PlacePolyline(t.open, value)];
      AllEdgesSnoc(PlaceAll(t.drawn, value), PlacePolyline(t.open, value));
    }
  }

  /** Playing the loaded command of a non-comment line keeps the simulator in step with the
      plotter executing the command. */
  lemma StepSync<C>(s: Sim, t: Tracer<C>, c: Command<C>, p: Parsed, value: C -> real, home: C)
    requires Sync(s, t, value) && value(home) == 0.0 && !Silent(c) && Denotes(c, Some(p), value)
    ensures Step(s, p).Ok? && Sync(Step(s, p).value, TraceStep(t, c, home), value)
  {
    match c
    case PenDown => PenDownSync(s, t, p, value, home);
    case PenUp => PenUpSync(s, t, p, value, home);
    case Move(x, y, _) => MoveSync(s, t, (x, y), p, value);
    case ReturnHome => MoveSync(s, t, (home, home), p, value);
  }

  lemma {:induction false} PlaySync<C>(cmds: seq<Command<C>>, ps: seq<Parsed>, s: Sim, t: Tracer<C>,
                                       value: C -> real, home: C)
    requires DenotesAll(cmds, ps, value) && Sync(s, t, value) && value(home) == 0.0
    ensures Steps(s, ps).Ok? && Sync(Steps(s, ps).value, Trace(cmds, t, home), value)
    decreases |cmds|
  {
    if cmds != [] {
      if Silent(cmds[0]) {
        assert TraceStep(t, cmds[0], home) == t;
        PlaySync(cmds[1..], ps, s, t, value, home);
      } else {
        StepSync(s, t, cmds[0], ps[0], value, home);
        PlaySync(cmds[1..], ps[1..], Step(s, ps[0]).value, TraceStep(t, cmds[0], home), value, home);
      }
    }
  }

  /** Written out, loaded and played from a reset that lifts the pen, any program ends in
      step with the plotter that executes it from rest at the origin: the head and pen where
      the plotter leaves them, and on the canvas exactly the edges of the polylines drawn. */
  lemma ReplayDraws<C(!new)>(cmds: seq<Command<C>>, text: C -> string, value: C -> real, nib: real -> string,
                       home: C, s0: Sim)
    requires Writes(text, value) && value(home) == 0.0
    ensures var loaded := ParseGcode(Lines(cmds, text, nib));
      loaded.Ok? && Run(ResetLifted(s0), loaded.value).Ok?
      && Sync(Run(ResetLifted(s0), loaded.value).value, Trace(cmds, AtRest(home), home), value)
  {
    LinesRead(cmds, text, value, nib);
    var ps := ParseGcode(Lines(cmds, text, nib)).value;
    var s := ResetLifted(s0);
    assert Sync(s, AtRest(home), value) by {
      assert PlaceAll<C>([], value) == [];
      assert PlacePolyline<C>([], value) == [];
    }
    RunIsSteps(s, ps);
    assert ps[0..] == ps;
    PlaySync(cmds, ps, s, AtRest(home), value, home);
  }

  /** A program the plotter executes from rest back to rest, having drawn `drawing`, plays
      back to the origin with the pen up and exactly the edges of `drawing` on the canvas. */
  lemma ReplayRests<C(!new)>(cmds: seq<Command<C>>, text: C -> string, value: C -> real, nib: real -> string,
                             home: C, s0: Sim, drawing: seq<seq<(C, C)>>)
    requires Writes(text, value) && value(home) == 0.0
    requires Trace(cmds, AtRest(home), home) == Tracer((home, home), false, [], drawing)
    ensures var loaded := ParseGcode(Lines(cmds, text, nib));
      loaded.Ok? && Run(ResetLifted(s0), loaded.value).Ok?
      && var end := Run(ResetLifted(s0), loaded.value).value;
      end.pos == (0.0, 0.0) && !end.penDown && end.segments == AllEdges(PlaceAll(drawing, value))
  {
    ReplayDraws(cmds, text, value, nib, home, s0);
    assert PlacePolyline<C>([], value) == [];
  }

  // ---------------------------------------------------------------------------
  // The feed on the status panel
  // ---------------------------------------------------------------------------

  /** The feed the status panel shows once command `c` has run after showing `shown`: the
      feed written on a move, 2000 for a move written without one (or with feed 0), and no
      change for a pen command or a comment. */
  function FeedStep<C>(c: Command<C>, shown: real): real
  {
    match c
    case Move(_, _, Some(f)) => if f == 0 then 2000.0 else f as real
    case Move(_, _, None) => 2000.0
    case ReturnHome => 2000.0
    case _ => shown
  }

  /** The feed shown after the commands `cmds`, one after the other. */
  function FeedAfter<C>(cmds: seq<Command<C>>, shown: real): real
    decreases |cmds|
  {
    if cmds == [] then shown else FeedAfter(cmds[1..], FeedStep(cmds[0], shown))
  }

  /** After the last command the feed is what that command leaves. */
  lemma {:induction false} FeedAfterSnoc<C>(cmds: seq<Command<C>>, c: Command<C>, shown: real)
    ensures FeedAfter(cmds + [c], shown) == FeedStep(c, FeedAfter(cmds, shown))
    decreases |cmds|
  {
    if cmds != [] {
      assert (cmds + [c])[1..] == cmds[1..] + [c];
      FeedAfterSnoc(cmds[1..], c, FeedStep(cmds[0], shown));
    }
  }

  /** Playing the loaded command of a non-comment line shows the feed written on it. */
  lemma StepFeed<C>(s: Sim, c: Command<C>, p: Parsed, value: C -> real)
    requires !Silent(c) && Denotes(c, Some(p), value)
    ensures Step(s, p).Ok? && Step(s, p).value.feedShown == FeedStep(c, s.feedShown)
  {
    match c
    case PenDown =>
    case PenUp =>
    case Move(_, _, feed) => assert IsLinearMove(p.kind);
    case ReturnHome => assert IsLinearMove(p.kind);
  }

  lemma {:induction false} PlayFeed<C>(cmds: seq<Command<C>>, ps: seq<Parsed>, s: Sim, value: C -> real)
    requires DenotesAll(cmds, ps, value)
    ensures Steps(s, ps).Ok? && Steps(s, ps).value.feedShown == FeedAfter(cmds, s.feedShown)
    decreases |cmds|
  {
    if cmds != [] {
      if Silent(cmds[0]) {
        assert FeedStep(cmds[0], s.feedShown) == s.feedShown;
        PlayFeed(cmds[1..], ps, s, value);
      } else {
        StepFeed(s, cmds[0], ps[0], value);
        PlayFeed(cmds[1..], ps[1..], Step(s, ps[0]).value, value);
      }
    }
  }

  /** Written out, loaded and played from a reset, a program leaves on the status panel the
      feed of its last move: the feed written on it, or 2000 when it was written without one;
      0, as the reset sets it, when there is no move at all. */
  lemma ReplayShowsFeed<C(!new)>(cmds: seq<Command<C>>, text: C -> string, value: C -> real, nib: real -> string,
                                 s0: Sim)
    requires Writes(text, value)
    ensures var loaded := ParseGcode(Lines(cmds, text, nib));
      loaded.Ok? && Run(ResetLifted(s0), loaded.value).Ok?
      && Run(ResetLifted(s0), loaded.value).value.feedShown == FeedAfter(cmds, 0.0)
  {
    LinesRead(cmds, text, value, nib);
    var ps := ParseGcode(Lines(cmds, text, nib)).value;
    var s := ResetLifted(s0);
    RunIsSteps(s, ps);
    assert ps[0..] == ps;
    PlayFeed(cmds, ps, s, value);
  }

  /** A program ending with the return home leaves feed 2000 on the panel. */
  lemma HomeShowsDefaultFeed<C>(body: seq<Command<C>>, shown: real)
    ensures FeedAfter(body + [ReturnHome], shown) == 2000.0
  {
    FeedAfterSnoc(body, ReturnHome, shown);
  }

  // ---------------------------------------------------------------------------
  // The raster program, played back
  // ---------------------------------------------------------------------------

  /** Pixel coordinates written with `:.2f` at one pixel per millimetre. */
  function PixelText(x: int): string
  {
    Fixed2Text(100 * x)
  }

  function PixelValue(x: int): real
  {
    x as real
  }

  lemma PixelsWritten()
    ensures Writes(PixelText, PixelValue)
  {
    forall x: int
      ensures IsToken(PixelText(x)) && ParseFloat(PixelText(x)) == Ok(PixelValue(x))
    {
      PixelReads(x);
    }
  }

  lemma PixelReads(x: int)
    ensures IsToken(PixelText(x)) && ParseFloat(PixelText(x)) == Ok(PixelValue(x))
  {
    var c := 100 * x;
    assert PixelText(x) == Fixed2Text(c);
    assert c as real / 100.0 == PixelValue(x);
    Fixed2TextReads(c);
  }

  // ---------------------------------------------------------------------------
  // Millimetres, played back
  // ---------------------------------------------------------------------------

  /** Millimetres in hundredths, rounded to the nearest hundredth, halves up. */
  function Hundredths(v: real): int
  {
    (100.0 * v + 0.5).Floor
  }

  /** Millimetres written with two decimals. */
  function MmText(v: real): string
  {
    Fixed2Text(Hundredths(v))
  }

  /** What a millimetre coordinate reads back as: its value rounded to two decimals. */
  function MmValue(v: real): real
  {
    Hundredths(v) as real / 100.0
  }

  /** Two-decimal rounding moves a coordinate by at most half a hundredth of a millimetre. */
  lemma MmValueNear(v: real)
    ensures MmValue(v) - 0.005 <= v < MmValue(v) + 0.005
  {
    var n := Hundredths(v);
    assert n as real <= 100.0 * v + 0.5 < n as real + 1.0;
  }

  /** Millimetres written with two decimals read back as their rounded value, and 0 reads
      back as 0. */
  lemma MillimetresWritten()
    ensures Writes(MmText, MmValue) && MmValue(0.0) == 0.0
  {
    forall v: real
      ensures IsToken(MmText(v)) && ParseFloat(MmText(v)) == Ok(MmValue(v))
    {
      Fixed2TextReads(Hundredths(v));
    }
    assert Hundredths(0.0) == 0;
  }
}
