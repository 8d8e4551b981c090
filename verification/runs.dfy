/**
 Maximal runs of `true` in a sequence of booleans: the independent description of what a
 raster scan line should draw. A scan line is given in scan order, so a run's `first`
 position is where the pen goes down and its `last` position is where it is lifted.
 */
module Runs {

  /** Positions `first..last` (inclusive) of a scan line. */
  datatype Run = Run(first: nat, last: nat)

  /** `r` is a maximal run of ink: every cell from `first` to `last` is ink, and the cells
      just outside it are blank or off the line. */
  predicate MaximalRun(cells: seq<bool>, r: Run)
  {
    && r.first <= r.last < |cells|
    && (forall k :: r.first <= k <= r.last ==> cells[k])
    && (r.first == 0 || !cells[r.first - 1])
    && (r.last + 1 == |cells| || !cells[r.last + 1])
  }

  /** Position `i` does not fall strictly inside a run of ink. */
  predicate Boundary(cells: seq<bool>, i: nat)
  {
    i == 0 || i >= |cells| || !cells[i - 1] || !cells[i]
  }

  /** The last position of the run of ink that contains position `i`, looking forward. */
  function RunEnd(cells: seq<bool>, i: nat): (e: nat)
    requires i < |cells| && cells[i]
    ensures i <= e < |cells|
    ensures forall k :: i <= k <= e ==> cells[k]
    ensures e + 1 == |cells| || !cells[e + 1]
    decreases |cells| - i
  {
    if i + 1 < |cells| && cells[i + 1] then RunEnd(cells, i + 1) else i
  }

  /** The runs of ink at or after position `i`, in scan order: skip blank cells, and from
      the first ink cell take the run to its end. */
  function RunsFrom(cells: seq<bool>, i: nat): (rs: seq<Run>)
    requires i <= |cells|
    ensures forall j :: 0 <= j < |rs| ==> i <= rs[j].first <= rs[j].last < |cells|
    decreases |cells| - i
  {
    if i == |cells| then []
    else if !cells[i] then RunsFrom(cells, i + 1)
    else
      var e := RunEnd(cells, i);
      [Run(i, e)] + RunsFrom(cells, e + 1)
  }

  /** From a position that is not inside a run, `RunsFrom` lists exactly the maximal runs
      that start there or later, each once, left to right. */
  lemma RunsFromAreMaximalRuns(cells: seq<bool>, i: nat)
    requires i <= |cells| && Boundary(cells, i)
    ensures forall j :: 0 <= j < |RunsFrom(cells, i)| ==> MaximalRun(cells, RunsFrom(cells, i)[j])
    ensures forall j :: 0 <= j < |RunsFrom(cells, i)| - 1 ==> RunsFrom(cells, i)[j].last < RunsFrom(cells, i)[j + 1].first
    ensures forall r :: MaximalRun(cells, r) && i <= r.first ==> r in RunsFrom(cells, i)
  {
    RunsFromMaximal(cells, i);
    RunsFromOrdered(cells, i);
    RunsFromComplete(cells, i);
  }

  lemma {:induction false} RunsFromMaximal(cells: seq<bool>, i: nat)
    requires i <= |cells| && Boundary(cells, i)
    ensures forall j :: 0 <= j < |RunsFrom(cells, i)| ==> MaximalRun(cells, RunsFrom(cells, i)[j])
    decreases |cells| - i
  {
    if i < |cells| && !cells[i] {
      RunsFromMaximal(cells, i + 1);
    } else if i < |cells| {
      var e := RunEnd(cells, i);
      var rest := RunsFrom(cells, e + 1);
      RunsFromMaximal(cells, e + 1);
      var rs := [Run(i, e)] + rest;
      assert RunsFrom(cells, i) == rs;
      forall j | 0 <= j < |rs| ensures MaximalRun(cells, rs[j]) {
        if j > 0 {
          assert rs[j] == rest[j - 1];
        }
      }
    }
  }

  lemma {:induction false} RunsFromOrdered(cells: seq<bool>, i: nat)
    requires i <= |cells|
    ensures forall j :: 0 <= j < |RunsFrom(cells, i)| - 1 ==> RunsFrom(cells, i)[j].last < RunsFrom(cells, i)[j + 1].first
    decreases |cells| - i
  {
    if i < |cells| && !cells[i] {
      RunsFromOrdered(cells, i + 1);
    } else if i < |cells| {
      var e := RunEnd(cells, i);
      var rest := RunsFrom(cells, e + 1);
      RunsFromOrdered(cells, e + 1);
      var rs := [Run(i, e)] + rest;
      assert RunsFrom(cells, i) == rs;
      forall j | 0 <= j < |rs| - 1 ensures rs[j].last < rs[j + 1].first {
        assert rs[j + 1] == rest[j];
        if j > 0 {
          assert rs[j] == rest[j - 1];
        }
      }
    }
  }

  lemma {:induction false} RunsFromComplete(cells: seq<bool>, i: nat)
    requires i <= |cells| && Boundary(cells, i)
    ensures forall r :: MaximalRun(cells, r) && i <= r.first ==> r in RunsFrom(cells, i)
    decreases |cells| - i
  {
    if i < |cells| && !cells[i] {
      RunsFromComplete(cells, i + 1);
      forall r | MaximalRun(cells, r) && i <= r.first
        ensures i + 1 <= r.first
      {
      }
    } else if i < |cells| {
      var e := RunEnd(cells, i);
      var rest := RunsFrom(cells, e + 1);
      RunsFromComplete(cells, e + 1);
      MaximalRunsAfter(cells, i, e);
      var rs := [Run(i, e)] + rest;
      assert RunsFrom(cells, i) == rs;
      forall r | MaximalRun(cells, r) && i <= r.first ensures r in rs {
        if r != Run(i, e) {
          assert r in rest;
        }
      }
    }
  }

  /** A maximal run starting at or after the start `i` of a run ending at `e` is that run,
      or starts after it. */
  lemma MaximalRunsAfter(cells: seq<bool>, i: nat, e: nat)
    requires i < |cells| && cells[i] && Boundary(cells, i) && e == RunEnd(cells, i)
    ensures forall r :: MaximalRun(cells, r) && i <= r.first ==> r == Run(i, e) || e + 1 <= r.first
  {
    forall r | MaximalRun(cells, r) && i <= r.first
      ensures r == Run(i, e) || e + 1 <= r.first
    {
      if r.first <= e {
        assert r.first == i;
        assert r.last == e;
      }
    }
  }

  /** The maximal runs of a whole scan line. */
  function MaximalRuns(cells: seq<bool>): (rs: seq<Run>)
  {
    RunsFrom(cells, 0)
  }

  /** A line has no maximal run exactly when it holds no ink at all. */
  lemma {:induction false} NoRunsIffBlank(cells: seq<bool>, i: nat)
    requires i <= |cells| && Boundary(cells, i)
    ensures RunsFrom(cells, i) == [] <==> forall k :: i <= k < |cells| ==> !cells[k]
    decreases |cells| - i
  {
    if i < |cells| && !cells[i] {
      NoRunsIffBlank(cells, i + 1);
    }
  }
}
