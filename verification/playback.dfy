/**
 The simulator's playback: the part of the animation loop and of the reset that changes
 the simulated plotter, without the widgets and timers. Each tick shows and executes one
 parsed command: `M3` lowers the pen, `M5` lifts it, `G1`..`G3` move the head in a straight
 line to the command's X and Y (drawing a segment when the pen is down), and `G0` only
 advances. A tick past the end, or while paused, toggles play/pause, and toggling to play
 runs the loop body again at once.
 */
module Playback {
  import opened Wrappers
  import opened GcodeParser

  type Point = (real, real)

  /** The simulated plotter and what the status panel shows.
      `penDown` is the pen as playback uses it; `penShown` is the "Pen State" label. */
  datatype Sim = Sim(index: nat, playing: bool, penDown: bool, pos: Point,
                     segments: seq<(Point, Point)>, shown: string, penShown: bool, feedShown: real)

  /** A `G1`..`G3` command without X or Y: the head position cannot be mapped to the canvas,
      and the loop stops with an error. */
  datatype PlayError = MissingCoordinate(index: nat)

  /** `cmd.get('f') or 2000`: an absent or zero feedrate reads as 2000. */
  function EffectiveFeed(f: Option<real>): (feed: real)
    ensures f.Some? && f.value != 0.0 ==> feed == f.value
    ensures f.None? || f.value == 0.0 ==> feed == 2000.0
  {
    if f.None? || f.value == 0.0 then 2000.0 else f.value
  }

  predicate IsLinearMove(k: Kind)
  {
    k == G(1) || k == G(2) || k == G(3)
  }

  /** Executing the command at the current index and moving past it. */
  function Step(s: Sim, c: Parsed): (r: Result<Sim, PlayError>)
    ensures r.Ok? ==> r.value.index == s.index + 1 && r.value.playing == s.playing && r.value.shown == c.raw
    ensures r.Err? <==> IsLinearMove(c.kind) && (c.x.None? || c.y.None?)
    ensures r.Ok? && c.kind == M3 ==> r.value == s.(index := s.index + 1, shown := c.raw, penDown := true, penShown := true)
    ensures r.Ok? && c.kind == M5 ==> r.value == s.(index := s.index + 1, shown := c.raw, penDown := false, penShown := false)
    ensures r.Ok? && IsLinearMove(c.kind) ==>
      r.value.pos == (c.x.value, c.y.value) && r.value.penDown == s.penDown
      && r.value.segments == s.segments + (if s.penDown then [(s.pos, r.value.pos)] else [])
      && r.value.feedShown == EffectiveFeed(c.f)
    ensures r.Ok? && !(c.kind in {M3, M5}) && !IsLinearMove(c.kind) ==> r.value == s.(index := s.index + 1, shown := c.raw)
  {
    var s1 := s.(shown := c.raw);
    var r :=
      if c.kind == M3 then Ok(s1.(penDown := true, penShown := true))
      else if c.kind == M5 then Ok(s1.(penDown := false, penShown := false))
      else if IsLinearMove(c.kind) then
        if c.x.None? || c.y.None? then Err(MissingCoordinate(s.index))
        else
          var target := (c.x.value, c.y.value);
          Ok(s1.(feedShown := EffectiveFeed(c.f), pos := target,
                 segments := s.segments + (if s.penDown then [(s.pos, target)] else [])))
      else Ok(s1);
    match r
    case Err(e) => Err(e)
    case Ok(t) => Ok(t.(index := s.index + 1))
  }

  /** One call of the animation loop. */
  function Tick(s: Sim, cmds: seq<Parsed>): (r: Result<Sim, PlayError>)
    ensures s.playing && s.index < |cmds| ==> r == Step(s, cmds[s.index])
    ensures s.index >= |cmds| ==> r == Ok(s.(playing := false))
    ensures !s.playing && s.index < |cmds| ==> r == Step(s.(playing := true), cmds[s.index])
  {
    if !s.playing || s.index >= |cmds| then
      // toggle_play_pause: flip the state; on play, run the loop body again at once
      var t := s.(playing := !s.playing);
      if !t.playing then Ok(t)
      else if t.index >= |cmds| then Ok(t.(playing := false))
      else Step(t, cmds[t.index])
    else Step(s, cmds[s.index])
  }

  /** `reset_simulation`: back to the first command, the head at the origin, paused, canvas
      cleared, status "UP" and feedrate 0. The pen used for drawing is not reset. */
  function Reset(s: Sim): (r: Sim)
    ensures r.index == 0 && !r.playing && r.pos == (0.0, 0.0) && r.segments == []
    ensures !r.penShown && r.feedShown == 0.0
    ensures r.penDown == s.penDown && r.shown == s.shown
  {
    s.(index := 0, playing := false, pos := (0.0, 0.0), segments := [], penShown := false, feedShown := 0.0)
  }

  /** The simulator as first shown: paused at the origin, pen up. */
  function Initial(): Sim
  {
    Sim(0, false, false, (0.0, 0.0), [], "None", false, 0.0)
  }

  /** Playing on from `s` to the end of the commands, one step per command. */
  function Run(s: Sim, cmds: seq<Parsed>): (r: Result<Sim, PlayError>)
    ensures r.Ok? ==> r.value.index == (if s.index < |cmds| then |cmds| else s.index)
    ensures r.Ok? ==> r.value.playing == s.playing
    decreases |cmds| - s.index
  {
    if s.index >= |cmds| then Ok(s)
    else
      var next := Step(s, cmds[s.index]);
      if next.Err? then Err(next.error) else Run(next.value, cmds)
  }

  /** The commands `cmds` executed one after the other from `s`, stopping at the first error. */
  function Steps(s: Sim, cmds: seq<Parsed>): Result<Sim, PlayError>
    decreases |cmds|
  {
    if cmds == [] then Ok(s)
    else match Step(s, cmds[0])
      case Err(e) => Err(e)
      case Ok(t) => Steps(t, cmds[1..])
  }

  /** Playing on from `s` executes exactly the commands from its index on. */
  lemma {:induction false} RunIsSteps(s: Sim, cmds: seq<Parsed>)
    requires s.index <= |cmds|
    ensures Run(s, cmds) == Steps(s, cmds[s.index..])
    decreases |cmds| - s.index
  {
    if s.index < |cmds| {
      assert cmds[s.index..][0] == cmds[s.index];
      assert cmds[s.index..][1..] == cmds[s.index + 1..];
      match Step(s, cmds[s.index])
      case Err(e) =>
      case Ok(t) => RunIsSteps(t, cmds);
    }
  }

  /** `n` calls of the animation loop. */
  function Ticks(s: Sim, cmds: seq<Parsed>, n: nat): Result<Sim, PlayError>
    decreases n
  {
    if n == 0 then Ok(s)
    else match Tick(s, cmds)
      case Err(e) => Err(e)
      case Ok(t) => Ticks(t, cmds, n - 1)
  }

  /** While playing, the loop executes the remaining commands one per call, exactly as `Run`
      does, and the call after the last command pauses without changing anything else. */
  lemma {:induction false} TicksPlayToEnd(s: Sim, cmds: seq<Parsed>)
    requires s.playing && s.index <= |cmds|
    ensures Ticks(s, cmds, |cmds| - s.index) == Run(s, cmds)
    ensures Run(s, cmds).Ok? ==>
      Ticks(s, cmds, |cmds| - s.index + 1) == Ok(Run(s, cmds).value.(playing := false))
    decreases |cmds| - s.index
  {
    if s.index < |cmds| {
      match Step(s, cmds[s.index])
      case Err(e) =>
      case Ok(t) =>
        TicksPlayToEnd(t, cmds);
        assert |cmds| - s.index == (|cmds| - t.index) + 1;
    }
  }

  /** The pen after a sequence of commands: the last `M3`/`M5` decides, and without one the
      pen stays as it was. */
  function PenAfter(cmds: seq<Parsed>, down: bool): bool
    decreases |cmds|
  {
    if cmds == [] then down
    else PenAfter(cmds[1..], if cmds[0].kind == M3 then true else if cmds[0].kind == M5 then false else down)
  }

  /** Nothing but pen commands moves the pen, so after playing on the pen is the one the last
      pen command left; and only `G1`..`G3` commands with pen down add segments. */
  lemma {:induction false} RunPen(s: Sim, cmds: seq<Parsed>)
    requires s.index <= |cmds|
    ensures Run(s, cmds).Ok? ==> Run(s, cmds).value.penDown == PenAfter(cmds[s.index..], s.penDown)
    decreases |cmds| - s.index
  {
    if s.index < |cmds| {
      assert cmds[s.index..][1..] == cmds[s.index + 1..];
      match Step(s, cmds[s.index])
      case Err(e) =>
      case Ok(t) =>
        RunPen(t, cmds);
    }
  }

  /** Reset does not restore the pen: after `M3` and a reset, the next move draws even
      though the status shows the pen up. */
  lemma ResetKeepsPenDown()
    ensures var pen := Parsed("M3", M3, None, None, None, None, None);
      var move := Parsed("G1 X1 Y1", G(1), Some(1.0), Some(1.0), None, None, None);
      var s := Reset(Step(Initial(), pen).value);
      s.penDown && !s.penShown && Step(s, move).value.segments == [((0.0, 0.0), (1.0, 1.0))]
  {
  }

  /** Reset with the pen lifted as well: what the status panel promises. */
  function ResetLifted(s: Sim): Sim
  {
    Reset(s).(penDown := false)
  }

  /** Where the pen is already up, the reset as written is the lifted one. The simulator
      starts with the pen up (`Initial`), and a program that ends with `M5` leaves it up. */
  lemma PenUpResetLifts(s: Sim)
    requires !s.penDown
    ensures Reset(s) == ResetLifted(s)
  {
  }

  /** The status label shows the pen truthfully. */
  predicate PenLabelTruthful(s: Sim)
  {
    s.penShown == s.penDown
  }

  /** From a lifted reset the label is truthful, and every step keeps it so. */
  lemma PenLabelStaysTruthful(s: Sim, c: Parsed)
    ensures PenLabelTruthful(ResetLifted(s))
    ensures PenLabelTruthful(s) && Step(s, c).Ok? ==> PenLabelTruthful(Step(s, c).value)
  {
  }
}
