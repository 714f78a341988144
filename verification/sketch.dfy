/** The Schotter sketch's state and its two event handlers: the per-frame
    update (midpoint settle, one step for every stone, the frame recorder,
    the exit after the last frame) and the key handler. */
module Sketch {

  import opened Wrappers
  import opened Stones
  import Recording
  import opened Controls

  /** Thirty seconds at sixty frames a second. */
  const Frames: nat := 60 * 30

  /** How creating the frames directory turned out. */
  datatype MkdirResult = Created | AlreadyExists | Failed

  /** What a key press leaves behind: nothing to do, a snapshot of the
      window to save under the given file name, or a panic because the
      frames directory could not be created. */
  datatype KeyOutcome = Handled | Snapshot(path: string) | Panicked

  class Model {
    /** The executable's name, which names the frames directory and the
        snapshot file. */
    const exeName: string
    const framesDir: string

    var curFrame: nat
    var recording: bool

    /** The chance of a stone starting an active segment (never changed). */
    const motion: real
    var dispAdj: real
    var rotAdj: real
    var gravel: seq<Stone>

    /** The adjustments as whole numbers of steps. */
    ghost var dispTenths: nat
    ghost var rotTenths: nat

    /** Every stone keeps its grid position and a segment shorter than
        MaxCycles, the recorder is in a valid state, and both adjustments are
        whole numbers of steps, hence never negative. */
    ghost predicate Valid()
      reads this
    {
      GravelValid() && RecorderValid() && AdjustValid()
    }

    ghost predicate GravelValid()
      reads this`gravel
    {
      OnGrid(gravel)
    }

    ghost predicate RecorderValid()
      reads this`recording, this`curFrame
    {
      Recording.Valid(Recording.Recorder(recording, curFrame))
    }

    ghost predicate AdjustValid()
      reads this`dispAdj, this`rotAdj, this`dispTenths, this`rotTenths
    {
      dispAdj == dispTenths as real / 10.0 && rotAdj == rotTenths as real / 10.0
    }

    /** Every stone's pose and aim lie within the draw ranges. */
    ghost predicate InRange()
      reads this`gravel
    {
      forall i | 0 <= i < |gravel| :: Within(gravel[i])
    }

    /** The starting state: the grid at rest, full motion and adjustments,
        recording on from frame 0 into `<exe name>_frames`. */
    constructor(exeName: string)
      ensures Valid() && InRange()
      ensures this.exeName == exeName && framesDir == exeName + "_frames"
      ensures IsGrid(gravel)
      ensures motion == 1.0 && dispAdj == 1.0 && rotAdj == 1.0
      ensures recording && curFrame == 0
    {
      this.exeName := exeName;
      framesDir := exeName + "_frames";
      motion := 1.0;
      dispAdj := 1.0;
      rotAdj := 1.0;
      dispTenths := 10;
      rotTenths := 10;
      var g := BuildGravel();
      gravel := g;
      recording := true;
      curFrame := 0;
      new;
      assert InRange() by {
        forall i | 0 <= i < |gravel|
          ensures Within(gravel[i])
        {
          RepeatSign(gravel[i].cycles, 0.0);
        }
      }
    }

    /** One frame with `elapsed` frames elapsed and `draws[i]` the random
        draws of stone i. From the midpoint on both adjustments are 0; every
        stone takes one Step; the recorder takes one tick and names the file
        of the frame it saves; the sketch exits once the last frame is
        reached. With adjustments in [0, 1] the stones stay in range. */
    method Update(elapsed: nat, draws: seq<Draws>) returns (capture: Option<string>, exits: bool)
      requires Valid()
      requires |draws| == |gravel| && forall i | 0 <= i < |draws| :: ValidDraws(draws[i])
      modifies this
      ensures Valid()
      ensures elapsed >= Frames / 2 ==> dispAdj == 0.0 && rotAdj == 0.0
      ensures elapsed < Frames / 2 ==> dispAdj == old(dispAdj) && rotAdj == old(rotAdj)
      ensures |gravel| == |old(gravel)|
      ensures forall i | 0 <= i < |gravel| ::
        gravel[i] == Step(old(gravel)[i], motion, dispAdj, rotAdj, draws[i])
      ensures var o := Recording.RecordTick(old(Recording.Recorder(recording, curFrame)), elapsed);
        recording == o.next.recording && curFrame == o.next.curFrame &&
        capture == (if o.capture.Some? then Some(Recording.FramePath(framesDir, o.capture.value)) else None)
      ensures exits <==> elapsed >= Frames
      ensures old(InRange()) && dispAdj <= 1.0 && rotAdj <= 1.0 ==> InRange()
    {
      if elapsed >= Frames / 2 {
        dispAdj := 0.0;
        rotAdj := 0.0;
        dispTenths := 0;
        rotTenths := 0;
      }

      StepGravel(draws);

      capture := RecordFrame(elapsed);
      exits := elapsed >= Frames;
    }

    /** One Step for every stone, in order, stone i with
        draws[i]. With both adjustments in [0, 1] every stone's pose and aim
        stay within the draw ranges. */
    method StepGravel(draws: seq<Draws>)
      requires GravelValid()
      requires |draws| == |gravel| && forall i | 0 <= i < |draws| :: ValidDraws(draws[i])
      modifies this`gravel
      ensures GravelValid()
      ensures |gravel| == |old(gravel)|
      ensures forall i | 0 <= i < |gravel| ::
        gravel[i] == Step(old(gravel)[i], motion, dispAdj, rotAdj, draws[i])
      ensures old(InRange()) && 0.0 <= dispAdj <= 1.0 && 0.0 <= rotAdj <= 1.0 ==> InRange()
    {
      var g := gravel;
      var i := 0;
      while i < |g|
        invariant 0 <= i <= |g| == |gravel|
        invariant forall j | 0 <= j < i :: g[j] == Step(gravel[j], motion, dispAdj, rotAdj, draws[j])
        invariant forall j | i <= j < |g| :: g[j] == gravel[j]
      {
        g := g[i := Step(g[i], motion, dispAdj, rotAdj, draws[i])];
        i := i + 1;
      }
      gravel := g;
      StepsKeepGrid(old(gravel), gravel, motion, dispAdj, rotAdj, draws);
      if old(InRange()) && 0.0 <= dispAdj <= 1.0 && 0.0 <= rotAdj <= 1.0 {
        GridRows(old(gravel));
        StepsWithin(old(gravel), gravel, motion, dispAdj, rotAdj, draws);
      }
    }

    /** The recorder's part of a frame: on every even frame while recording,
        count the frame and ask for it to be saved under its file name, or
        stop recording once the count passes LastFrame. */
    method RecordFrame(elapsed: nat) returns (capture: Option<string>)
      requires RecorderValid()
      modifies this`recording, this`curFrame
      ensures RecorderValid()
      ensures var o := Recording.RecordTick(old(Recording.Recorder(recording, curFrame)), elapsed);
        recording == o.next.recording && curFrame == o.next.curFrame &&
        capture == (if o.capture.Some? then Some(Recording.FramePath(framesDir, o.capture.value)) else None)
    {
      capture := None;
      if recording && elapsed % 2 == 0 {
        curFrame := curFrame + 1;
        if curFrame > Recording.LastFrame {
          recording := false;
        } else {
          capture := Some(Recording.FramePath(framesDir, curFrame));
        }
      }
    }

    /** R stops a running recorder, or creates the frames directory and
        restarts recording from frame 0 (panicking if the directory can be
        neither created nor found); S asks for a snapshot named after the
        executable; Up / Down and Right / Left move the displacement and
        rotation adjustments by one step, Down and Left only from a positive
        value. Nothing else changes. */
    method KeyPressed(key: Key, mkdir: MkdirResult) returns (outcome: KeyOutcome)
      requires Valid()
      modifies this
      ensures Valid()
      ensures outcome ==
        if key == S then Snapshot(exeName + ".png")
        else if key == R && !old(recording) && mkdir == Failed then Panicked
        else Handled
      ensures key == R && old(recording) ==> !recording && curFrame == old(curFrame)
      ensures key == R && !old(recording) && mkdir != Failed ==> recording && curFrame == 0
      ensures key != R || outcome == Panicked ==>
        recording == old(recording) && curFrame == old(curFrame)
      ensures dispAdj ==
        if key == Up then Raise(old(dispAdj)) else if key == Down then Lower(old(dispAdj)) else old(dispAdj)
      ensures rotAdj ==
        if key == Right then Raise(old(rotAdj)) else if key == Left then Lower(old(rotAdj)) else old(rotAdj)
      ensures dispAdj >= 0.0 && rotAdj >= 0.0
      ensures gravel == old(gravel)
    {
      outcome := Handled;
      match key {
        case R =>
          if recording {
            recording := false;
          } else if mkdir == Failed {
            outcome := Panicked;
          } else {
            recording := true;
            curFrame := 0;
          }
        case S =>
          outcome := Snapshot(exeName + ".png");
        case Up =>
          dispAdj := dispAdj + AdjustStep;
          dispTenths := dispTenths + 1;
        case Down =>
          if dispAdj > 0.0 {
            dispAdj := dispAdj - AdjustStep;
            dispTenths := dispTenths - 1;
          }
        case Right =>
          rotAdj := rotAdj + AdjustStep;
          rotTenths := rotTenths + 1;
        case Left =>
          if rotAdj > 0.0 {
            rotAdj := rotAdj - AdjustStep;
            rotTenths := rotTenths - 1;
          }
        case Other =>
      }
    }
  }

  /** Stone i sits at column i % Cols of row i / Cols, in a segment shorter
      than MaxCycles. */
  predicate OnGrid(g: seq<Stone>) {
    |g| == Rows * Cols &&
    forall i | 0 <= i < |g| ::
      g[i].x == (i % Cols) as real && g[i].y == (i / Cols) as real && g[i].cycles < MaxCycles
  }

  /** One Step for every stone keeps every stone in its cell. */
  lemma StepsKeepGrid(g: seq<Stone>, r: seq<Stone>, motion: real, dispAdj: real, rotAdj: real, draws: seq<Draws>)
    requires |r| == |g| == |draws| && forall i | 0 <= i < |draws| :: ValidDraws(draws[i])
    requires forall i | 0 <= i < |g| :: r[i] == Step(g[i], motion, dispAdj, rotAdj, draws[i])
    requires OnGrid(g)
    ensures OnGrid(r)
  {
  }

  /** Over one tick, stones of the grid's rows whose poses and aims lie
      within the draw ranges stay within them when both adjustments are in
      [0, 1]. */
  lemma StepsWithin(g: seq<Stone>, r: seq<Stone>, motion: real, dispAdj: real, rotAdj: real, draws: seq<Draws>)
    requires |r| == |g| == |draws| && forall i | 0 <= i < |draws| :: ValidDraws(draws[i])
    requires forall i | 0 <= i < |g| :: r[i] == Step(g[i], motion, dispAdj, rotAdj, draws[i])
    requires 0.0 <= dispAdj <= 1.0 && 0.0 <= rotAdj <= 1.0
    requires forall i | 0 <= i < |g| :: Within(g[i]) && 0.0 <= g[i].y <= Rows as real
    ensures forall i | 0 <= i < |r| :: Within(r[i])
  {
    forall i | 0 <= i < |r|
      ensures Within(r[i])
    {
      StepWithin(g[i], motion, dispAdj, rotAdj, draws[i]);
    }
  }

  /** Every stone of the grid lies in one of its rows. */
  lemma GridRows(g: seq<Stone>)
    requires OnGrid(g)
    ensures forall i | 0 <= i < |g| :: 0.0 <= g[i].y <= Rows as real
  {
    forall i | 0 <= i < |g|
      ensures 0.0 <= g[i].y <= Rows as real
    {
      RowInGrid(i);
    }
  }

  /** The row of cell i of the grid is one of its rows. */
  lemma RowInGrid(i: nat)
    requires i < Rows * Cols
    ensures (i / Cols) as real < Rows as real
  {
    assert i / Cols < Rows;
  }

  /** The ticks from the midpoint to the exit frame: full motion, both
      adjustments 0. */
  predicate SecondHalf(ts: seq<Tick>) {
    |ts| == Frames + 1 - Frames / 2 &&
    forall i | 0 <= i < |ts| :: ts[i].motion == 1.0 && ts[i].dispAdj == 0.0 && ts[i].rotAdj == 0.0
  }

  /** Every stone of a valid state, whatever its segment at the midpoint,
      is back in the rest pose with no motion by the exit frame. */
  lemma SettledByExit(s: Stone, ts: seq<Tick>)
    requires s.cycles < MaxCycles && ValidTicks(ts) && SecondHalf(ts)
    ensures Settled(Run(s, ts))
  {
    SettleAfterMidpoint(s, ts);
  }
}
