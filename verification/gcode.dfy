/**
 The G-code lines the two generators emit, and two views of a command list that do not
 depend on which generator produced it: whether the pen commands strictly alternate,
 and which polylines the pen draws while it is down.
 */
module GCode {
  import opened Wrappers

  /** One emitted line of G-code. `C` is the coordinate type: integer pixels for the raster
      generator, millimetres (reals) for the text pipeline. */
  datatype Command<C> =
    | NibComment(nibMm: real)               // "; Generated with pen nib size: <nib>mm"
    | Comment(text: string)                 // "; <text>"
    | PenDown                               // "M3 ; Pen Down"
    | PenUp                                 // "M5 ; Pen Up"
    | Move(x: C, y: C, feed: Option<nat>)   // "G1 X<x> Y<y>", with " F<feed>" when a feed is given
    | ReturnHome                            // "G1 X0 Y0 ; Return to home"

  /** Starting with the pen down iff `down`, every M3 finds the pen up, every M5 finds it
      down, and the pen is up once the list ends. */
  predicate Alternates<C>(cmds: seq<Command<C>>, down: bool)
    decreases |cmds|
  {
    if cmds == [] then !down
    else match cmds[0]
      case PenDown => !down && Alternates(cmds[1..], true)
      case PenUp => down && Alternates(cmds[1..], false)
      case _ => Alternates(cmds[1..], down)
  }

  /** Number of M3 (pen-down) commands. */
  function CountPenDowns<C>(cmds: seq<Command<C>>): nat
    decreases |cmds|
  {
    if cmds == [] then 0 else (if cmds[0].PenDown? then 1 else 0) + CountPenDowns(cmds[1..])
  }

  lemma {:induction false} AlternatesAppend<C>(a: seq<Command<C>>, b: seq<Command<C>>, down: bool)
    requires Alternates(a, down) && Alternates(b, false)
    ensures Alternates(a + b, down)
    decreases |a|
  {
    if a == [] {
      assert a + b == b;
    } else {
      assert (a + b)[0] == a[0];
      assert (a + b)[1..] == a[1..] + b;
      match a[0]
      case PenDown => AlternatesAppend(a[1..], b, true);
      case PenUp => AlternatesAppend(a[1..], b, false);
      case _ => AlternatesAppend(a[1..], b, down);
    }
  }

  lemma {:induction false} CountPenDownsAppend<C>(a: seq<Command<C>>, b: seq<Command<C>>)
    ensures CountPenDowns(a + b) == CountPenDowns(a) + CountPenDowns(b)
    decreases |a|
  {
    if a == [] {
      assert a + b == b;
    } else {
      assert (a + b)[0] == a[0];
      assert (a + b)[1..] == a[1..] + b;
      CountPenDownsAppend(a[1..], b);
    }
  }

  /** The pen as a plotter would move it: the head position, whether the pen touches the
      paper, the polyline being drawn, and the polylines already finished (pen lifted). */
  datatype Tracer<C> = Tracer(pos: (C, C), down: bool, open: seq<(C, C)>, drawn: seq<seq<(C, C)>>)

  /** Effect of one command. Lowering the pen starts a polyline at the head position; a move
      with the pen down extends it; lifting the pen finishes it. `home` is the coordinate 0. */
  function TraceStep<C>(t: Tracer<C>, c: Command<C>, home: C): Tracer<C>
  {
    match c
    case PenDown => if t.down then t else t.(down := true, open := [t.pos])
    case PenUp => if t.down then t.(down := false, open := [], drawn := t.drawn + [t.open]) else t
    case Move(x, y, _) => MoveTo(t, (x, y))
    case ReturnHome => MoveTo(t, (home, home))
    case _ => t
  }

  /** The plotter at rest: at the origin, pen up, nothing drawn. */
  function AtRest<C>(home: C): Tracer<C>
  {
    Tracer((home, home), false, [], [])
  }

  function MoveTo<C>(t: Tracer<C>, p: (C, C)): Tracer<C>
  {
    if t.down then t.(pos := p, open := t.open + [p]) else t.(pos := p)
  }

  /** Effect of a whole command list, in order. */
  function Trace<C>(cmds: seq<Command<C>>, t: Tracer<C>, home: C): Tracer<C>
    decreases |cmds|
  {
    if cmds == [] then t else Trace(cmds[1..], TraceStep(t, cmds[0], home), home)
  }

  /** Tracing a concatenation is tracing one list after the other. */
  lemma {:induction false} TraceAppend<C>(a: seq<Command<C>>, b: seq<Command<C>>, t: Tracer<C>, home: C)
    ensures Trace(a + b, t, home) == Trace(b, Trace(a, t, home), home)
    decreases |a|
  {
    if a == [] {
      assert a + b == b;
    } else {
      assert (a + b)[0] == a[0];
      assert (a + b)[1..] == a[1..] + b;
      TraceAppend(a[1..], b, TraceStep(t, a[0], home), home);
    }
  }

  /** Two pieces that each leave the pen up with nothing open draw, one after the other,
      the drawing of the first followed by the drawing of the second. */
  lemma TraceSequence<C>(a: seq<Command<C>>, b: seq<Command<C>>, t: Tracer<C>, home: C,
                         da: seq<seq<(C, C)>>, db: seq<seq<(C, C)>>)
    requires !Trace(a, t, home).down && Trace(a, t, home).open == []
    requires Trace(a, t, home).drawn == t.drawn + da
    requires var t1 := Trace(a, t, home);
      !Trace(b, t1, home).down && Trace(b, t1, home).open == [] && Trace(b, t1, home).drawn == t1.drawn + db
    ensures !Trace(a + b, t, home).down && Trace(a + b, t, home).open == []
    ensures Trace(a + b, t, home).drawn == t.drawn + (da + db)
  {
    TraceAppend(a, b, t, home);
  }
}
