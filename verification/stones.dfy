/** The stones of the Schotter sketch: the record each grid cell carries, how
    the grid of them is built, the one-tick motion rule every stone follows and
    the hue it is drawn with. Offsets, rotations and velocities are real
    numbers, so the rounding of the sketch's 32-bit floats is not modelled;
    the random draws a stone consumes are passed in as a `Draws` value. */
module Stones {

  /** Rows and columns of the grid. */
  const Rows: nat := 22
  const Cols: nat := 12

  /** A segment lasts a number of ticks drawn from [MinCycles, MaxCycles). */
  const MinCycles: nat := 50
  const MaxCycles: nat := 300

  /** PI / 4: the half-width of the rotation draw and the rotation scale of
      the hue. A decimal stands in for the 32-bit float constant. */
  const QuarterPi: real := 0.7853981633974483

  /** One grid cell: its rest position (`x`, `y`), its displacement from that
      position and rotation, the per-tick velocities of the current segment
      and the number of ticks the segment still lasts. */
  datatype Stone = Stone(
    x: real, y: real,
    xOffset: real, yOffset: real, rotation: real,
    xVelocity: real, yVelocity: real, rotVelocity: real,
    cycles: nat)

  /** Offsets and rotation of a stone, or a target for them. */
  datatype Pose = Pose(xOffset: real, yOffset: real, rotation: real)

  const Rest := Pose(0.0, 0.0, 0.0)

  function PoseOf(s: Stone): Pose {
    Pose(s.xOffset, s.yOffset, s.rotation)
  }

  /** The distance covered by k ticks of velocity v, as the sum of k steps. */
  function Repeat(k: nat, v: real): real {
    if k == 0 then 0.0 else Repeat(k - 1, v) + v
  }

  /** Where the current segment ends: the pose after coasting for all the
      remaining cycles at the current velocities. */
  function Aim(s: Stone): Pose {
    Pose(s.xOffset + Repeat(s.cycles, s.xVelocity),
         s.yOffset + Repeat(s.cycles, s.yVelocity),
         s.rotation + Repeat(s.cycles, s.rotVelocity))
  }

  /** k steps of v cover k * v. */
  lemma {:induction false} RepeatIsProduct(k: nat, v: real)
    ensures Repeat(k, v) == k as real * v
  {
    if k > 0 {
      RepeatIsProduct(k - 1, v);
    }
  }

  /** k steps of v all go the way v goes. */
  lemma {:induction false} RepeatSign(k: nat, v: real)
    ensures v >= 0.0 ==> Repeat(k, v) >= 0.0
    ensures v <= 0.0 ==> Repeat(k, v) <= 0.0
  {
    if k > 0 {
      RepeatSign(k - 1, v);
    }
  }

  predicate ZeroVelocity(s: Stone) {
    s.xVelocity == 0.0 && s.yVelocity == 0.0 && s.rotVelocity == 0.0
  }

  predicate SameVelocity(s: Stone, t: Stone) {
    s.xVelocity == t.xVelocity && s.yVelocity == t.yVelocity && s.rotVelocity == t.rotVelocity
  }

  /** No offset, no rotation, no velocity and no segment under way. */
  predicate AtRest(s: Stone) {
    PoseOf(s) == Rest && ZeroVelocity(s) && s.cycles == 0
  }

  // ---------------------------------------------------------------- grid

  /** A new stone at grid position (x, y). */
  function NewStone(x: real, y: real): (s: Stone)
    ensures s.x == x && s.y == y && AtRest(s)
  {
    Stone(x, y, 0.0, 0.0, 0.0, 0.0, 0.0, 0.0, 0)
  }

  /** The grid in row-major order: index i holds a new stone at column
      i % Cols of row i / Cols. */
  predicate IsGrid(g: seq<Stone>) {
    |g| == Rows * Cols &&
    forall i | 0 <= i < |g| :: g[i] == NewStone((i % Cols) as real, (i / Cols) as real)
  }

  /** Builds the grid row by row, each row column by column. */
  method BuildGravel() returns (gravel: seq<Stone>)
    ensures IsGrid(gravel)
  {
    gravel := [];
    var y := 0;
    while y < Rows
      invariant 0 <= y <= Rows
      invariant |gravel| == y * Cols
      invariant forall i | 0 <= i < |gravel| :: gravel[i] == NewStone((i % Cols) as real, (i / Cols) as real)
    {
      var x := 0;
      while x < Cols
        invariant 0 <= x <= Cols
        invariant |gravel| == y * Cols + x
        invariant forall i | 0 <= i < |gravel| :: gravel[i] == NewStone((i % Cols) as real, (i / Cols) as real)
      {
        assert (y * Cols + x) % Cols == x && (y * Cols + x) / Cols == y;
        gravel := gravel + [NewStone(x as real, y as real)];
        x := x + 1;
      }
      y := y + 1;
    }
  }

  /** The stone of cell (x, y) sits at index y * Cols + x, at rest. */
  lemma GridCell(g: seq<Stone>, x: nat, y: nat)
    requires IsGrid(g) && x < Cols && y < Rows
    ensures y * Cols + x < |g|
    ensures g[y * Cols + x].x == x as real && g[y * Cols + x].y == y as real
    ensures AtRest(g[y * Cols + x])
  {
    var i := y * Cols + x;
    assert i % Cols == x && i / Cols == y;
  }

  /** Every stone of the grid lies on it: 0 <= x < Cols and 0 <= y < Rows. */
  lemma GridOnGrid(g: seq<Stone>, i: nat)
    requires IsGrid(g) && i < |g|
    ensures 0.0 <= g[i].x < Cols as real && 0.0 <= g[i].y < Rows as real
  {
    assert i / Cols < Rows;
  }

  // ---------------------------------------------------------------- motion

  /** The random values one stone may consume in one tick: the roll that
      decides between an idle and an active segment, the three target draws
      and the segment length. */
  datatype Draws = Draws(roll: real, xDraw: real, yDraw: real, rotDraw: real, cycleDraw: nat)

  /** The ranges the random source draws from (all half-open). */
  predicate ValidDraws(d: Draws) {
    0.0 <= d.roll < 1.0 &&
    -0.5 <= d.xDraw < 0.5 && -0.5 <= d.yDraw < 0.5 &&
    -QuarterPi <= d.rotDraw < QuarterPi &&
    MinCycles <= d.cycleDraw < MaxCycles
  }

  /** The depth factor y / Rows of a stone. */
  function Depth(s: Stone): real {
    s.y / Rows as real
  }

  /** The target an active segment aims at: each draw scaled by the depth
      factor and the global displacement or rotation adjustment. */
  function Target(s: Stone, dispAdj: real, rotAdj: real, d: Draws): (t: Pose)
    ensures s.y == 0.0 ==> t == Rest
    ensures dispAdj == 0.0 && rotAdj == 0.0 ==> t == Rest
  {
    var dispFactor := Depth(s) * dispAdj;
    var rotFactor := Depth(s) * rotAdj;
    Pose(dispFactor * d.xDraw, dispFactor * d.yDraw, rotFactor * d.rotDraw)
  }

  /** One tick of one stone. With cycles left it coasts one step; with none
      it starts a new segment: idle (zero velocity) when the roll exceeds
      `motion`, otherwise active, with velocities that reach the target in
      exactly the drawn number of ticks. */
  function Step(s: Stone, motion: real, dispAdj: real, rotAdj: real, d: Draws): (r: Stone)
    requires ValidDraws(d)
    ensures r.x == s.x && r.y == s.y
    ensures s.cycles > 0 ==>
      r.cycles == s.cycles - 1 && SameVelocity(r, s) &&
      r.xOffset == s.xOffset + s.xVelocity &&
      r.yOffset == s.yOffset + s.yVelocity &&
      r.rotation == s.rotation + s.rotVelocity
    ensures s.cycles == 0 ==>
      r.cycles == d.cycleDraw && MinCycles <= r.cycles < MaxCycles && PoseOf(r) == PoseOf(s)
    ensures s.cycles == 0 && d.roll > motion ==> ZeroVelocity(r)
  {
    if s.cycles == 0 then
      if d.roll > motion then
        s.(xVelocity := 0.0, yVelocity := 0.0, rotVelocity := 0.0, cycles := d.cycleDraw)
      else
        var t := Target(s, dispAdj, rotAdj, d);
        var n := d.cycleDraw as real;
        s.(xVelocity := (t.xOffset - s.xOffset) / n,
           yVelocity := (t.yOffset - s.yOffset) / n,
           rotVelocity := (t.rotation - s.rotation) / n,
           cycles := d.cycleDraw)
    else
      s.(xOffset := s.xOffset + s.xVelocity,
         yOffset := s.yOffset + s.yVelocity,
         rotation := s.rotation + s.rotVelocity,
         cycles := s.cycles - 1)
  }

  /** Coasting one tick does not move the end of the segment. */
  lemma CoastKeepsAim(s: Stone, motion: real, dispAdj: real, rotAdj: real, d: Draws)
    requires ValidDraws(d) && s.cycles > 0
    ensures Aim(Step(s, motion, dispAdj, rotAdj, d)) == Aim(s)
  {
  }

  /** An active segment aims exactly at its target: the velocities are
      chosen so that coasting for the drawn number of ticks ends there. */
  lemma ActiveAimsAtTarget(s: Stone, motion: real, dispAdj: real, rotAdj: real, d: Draws)
    requires ValidDraws(d) && s.cycles == 0 && d.roll <= motion
    ensures Aim(Step(s, motion, dispAdj, rotAdj, d)) == Target(s, dispAdj, rotAdj, d)
  {
    var t := Target(s, dispAdj, rotAdj, d);
    var r := Step(s, motion, dispAdj, rotAdj, d);
    ReachAfter(s.xOffset, t.xOffset, r.cycles, r.xVelocity);
    ReachAfter(s.yOffset, t.yOffset, r.cycles, r.yVelocity);
    ReachAfter(s.rotation, t.rotation, r.cycles, r.rotVelocity);
  }

  /** An idle segment aims at the pose the stone already has. */
  lemma IdleAimsAtPose(s: Stone, motion: real, dispAdj: real, rotAdj: real, d: Draws)
    requires ValidDraws(d) && s.cycles == 0 && d.roll > motion
    ensures Aim(Step(s, motion, dispAdj, rotAdj, d)) == PoseOf(s)
  {
    var r := Step(s, motion, dispAdj, rotAdj, d);
    RepeatSign(r.cycles, 0.0);
  }

  /** Starting at `from`, n steps of (to - from) / n end at `to`. */
  lemma ReachAfter(from: real, to: real, n: nat, v: real)
    requires n > 0 && v == (to - from) / n as real
    ensures from + Repeat(n, v) == to
  {
    RepeatIsProduct(n, v);
  }

  /** The global parameters and the draws of one tick. */
  datatype Tick = Tick(motion: real, dispAdj: real, rotAdj: real, draws: Draws)

  predicate ValidTicks(ts: seq<Tick>) {
    forall i | 0 <= i < |ts| :: ValidDraws(ts[i].draws)
  }

  /** A stone after the ticks `ts`, one Step each. */
  function Run(s: Stone, ts: seq<Tick>): (r: Stone)
    requires ValidTicks(ts)
    ensures r.x == s.x && r.y == s.y
    ensures s.cycles < MaxCycles ==> r.cycles < MaxCycles
    decreases |ts|
  {
    if ts == [] then s
    else Run(Step(s, ts[0].motion, ts[0].dispAdj, ts[0].rotAdj, ts[0].draws), ts[1..])
  }

  lemma {:induction false} RunAppend(s: Stone, a: seq<Tick>, b: seq<Tick>)
    requires ValidTicks(a) && ValidTicks(b)
    ensures ValidTicks(a + b)
    ensures Run(s, a + b) == Run(Run(s, a), b)
    decreases |a|
  {
    assert ValidTicks(a + b);
    if a == [] {
      assert a + b == b;
    } else {
      assert (a + b)[0] == a[0];
      assert (a + b)[1..] == a[1..] + b;
      var s1 := Step(s, a[0].motion, a[0].dispAdj, a[0].rotAdj, a[0].draws);
      assert Run(s, a + b) == Run(s1, a[1..] + b);
      assert Run(s, a) == Run(s1, a[1..]);
      RunAppend(s1, a[1..], b);
    }
  }

  /** While a segment lasts, whatever the ticks' parameters and draws, each
      tick uses up one cycle and leaves the velocities unchanged. */
  lemma {:induction false} RunCoastingCycles(s: Stone, ts: seq<Tick>)
    requires ValidTicks(ts) && |ts| <= s.cycles
    ensures Run(s, ts).cycles == s.cycles - |ts|
    ensures SameVelocity(Run(s, ts), s)
    decreases |ts|
  {
    if ts != [] {
      var s1 := Step(s, ts[0].motion, ts[0].dispAdj, ts[0].rotAdj, ts[0].draws);
      assert Run(s, ts) == Run(s1, ts[1..]);
      RunCoastingCycles(s1, ts[1..]);
    }
  }

  /** While a segment lasts the stone moves linearly: after k ticks its pose
      is the start pose plus k times the velocity. */
  lemma {:induction false} RunCoasting(s: Stone, ts: seq<Tick>)
    requires ValidTicks(ts) && |ts| <= s.cycles
    ensures Run(s, ts).xOffset == s.xOffset + Repeat(|ts|, s.xVelocity)
    ensures Run(s, ts).yOffset == s.yOffset + Repeat(|ts|, s.yVelocity)
    ensures Run(s, ts).rotation == s.rotation + Repeat(|ts|, s.rotVelocity)
    decreases |ts|
  {
    if ts == [] {
      assert Run(s, ts) == s;
    } else {
      var s1 := Step(s, ts[0].motion, ts[0].dispAdj, ts[0].rotAdj, ts[0].draws);
      var rest := ts[1..];
      var e := Run(s1, rest);
      assert Run(s, ts) == e;
      RunCoasting(s1, rest);
      assert |rest| == |ts| - 1;
    }
  }

  /** Exact arrival: an active segment started with target t and length n
      ends, after exactly n more ticks, with the pose equal to t and no
      cycles left. */
  lemma ExactArrival(s: Stone, motion: real, dispAdj: real, rotAdj: real, d: Draws, ts: seq<Tick>)
    requires ValidDraws(d) && s.cycles == 0 && d.roll <= motion
    requires ValidTicks(ts) && |ts| == d.cycleDraw
    ensures PoseOf(Run(Step(s, motion, dispAdj, rotAdj, d), ts)) == Target(s, dispAdj, rotAdj, d)
    ensures Run(Step(s, motion, dispAdj, rotAdj, d), ts).cycles == 0
  {
    var r := Step(s, motion, dispAdj, rotAdj, d);
    ActiveAimsAtTarget(s, motion, dispAdj, rotAdj, d);
    RunToEnd(r, ts);
  }

  /** A segment run to its end leaves the stone at its aim, with no cycles left. */
  lemma RunToEnd(s: Stone, ts: seq<Tick>)
    requires ValidTicks(ts) && |ts| == s.cycles
    ensures PoseOf(Run(s, ts)) == Aim(s) && Run(s, ts).cycles == 0
  {
    RunCoastingCycles(s, ts);
    RunCoasting(s, ts);
  }

  /** Stone that cannot drift: no velocity while a segment lasts. */
  predicate Parked(s: Stone) {
    s.cycles > 0 ==> ZeroVelocity(s)
  }

  /** Idle segments only: a parked stone whose every roll exceeds `motion`
      never leaves its pose. */
  lemma {:induction false} IdleNeverMoves(s: Stone, ts: seq<Tick>)
    requires Parked(s) && ValidTicks(ts)
    requires forall i | 0 <= i < |ts| :: ts[i].draws.roll > ts[i].motion
    ensures Parked(Run(s, ts)) && PoseOf(Run(s, ts)) == PoseOf(s)
    decreases |ts|
  {
    if ts != [] {
      var s1 := Step(s, ts[0].motion, ts[0].dispAdj, ts[0].rotAdj, ts[0].draws);
      assert Parked(s1) && PoseOf(s1) == PoseOf(s);
      IdleNeverMoves(s1, ts[1..]);
    }
  }

  /** With no motion probability every resample is idle, except for a roll
      of exactly 0, which is not greater than 0 and starts an active one. */
  lemma NoMotionIsIdle(s: Stone, dispAdj: real, rotAdj: real, d: Draws)
    requires ValidDraws(d) && s.cycles == 0
    ensures d.roll > 0.0 ==> ZeroVelocity(Step(s, 0.0, dispAdj, rotAdj, d))
    ensures d.roll == 0.0 ==> Aim(Step(s, 0.0, dispAdj, rotAdj, d)) == Target(s, dispAdj, rotAdj, d)
  {
    if d.roll == 0.0 {
      ActiveAimsAtTarget(s, 0.0, dispAdj, rotAdj, d);
    }
  }

  /** Damping and settle: a stone of row 0, or any stone once both
      adjustments are 0, only ever starts segments aimed at the rest pose. */
  lemma DampedAimsAtRest(s: Stone, motion: real, dispAdj: real, rotAdj: real, d: Draws)
    requires ValidDraws(d) && s.cycles == 0 && d.roll <= motion
    requires s.y == 0.0 || (dispAdj == 0.0 && rotAdj == 0.0)
    ensures Aim(Step(s, motion, dispAdj, rotAdj, d)) == Rest
  {
    ActiveAimsAtTarget(s, motion, dispAdj, rotAdj, d);
  }

  /** At rest with no drift. */
  predicate Settled(s: Stone) {
    PoseOf(s) == Rest && Parked(s)
  }

  predicate NoAdjust(ts: seq<Tick>) {
    forall i | 0 <= i < |ts| :: ts[i].dispAdj == 0.0 && ts[i].rotAdj == 0.0
  }

  predicate AlwaysActive(ts: seq<Tick>) {
    forall i | 0 <= i < |ts| :: ts[i].motion >= 1.0
  }

  /** With both adjustments 0 a settled stone stays settled: every segment
      it starts, idle or active, has zero velocity. */
  lemma {:induction false} SettledStays(s: Stone, ts: seq<Tick>)
    requires Settled(s) && ValidTicks(ts) && NoAdjust(ts)
    ensures Settled(Run(s, ts))
    decreases |ts|
  {
    if ts != [] {
      var s1 := Step(s, ts[0].motion, ts[0].dispAdj, ts[0].rotAdj, ts[0].draws);
      if s.cycles == 0 && ts[0].draws.roll <= ts[0].motion {
        var n := ts[0].draws.cycleDraw as real;
        assert s1.xVelocity == (0.0 - 0.0) / n;
      }
      assert Settled(s1);
      SettledStays(s1, ts[1..]);
    }
  }

  /** The settle after the midpoint: with both adjustments 0 and every
      resample active, a stone with fewer than MaxCycles cycles left is
      settled after its current segment, one resample and the new segment,
      which take at most s.cycles + MaxCycles ticks, and stays so. */
  lemma SettleAfterMidpoint(s: Stone, ts: seq<Tick>)
    requires ValidTicks(ts) && NoAdjust(ts) && AlwaysActive(ts)
    requires |ts| >= s.cycles + MaxCycles
    ensures Settled(Run(s, ts))
  {
    var k := s.cycles;
    var a, b := ts[..k], ts[k..];
    assert ts == a + b;
    RunAppend(s, a, b);
    RunCoastingCycles(s, a);
    SettleFromResample(Run(s, a), b);
  }

  /** A stone at the end of its segment, resampling with both adjustments 0
      and an active roll, heads for the rest pose and, once there, stays. */
  lemma SettleFromResample(s: Stone, ts: seq<Tick>)
    requires s.cycles == 0 && ValidTicks(ts) && NoAdjust(ts) && AlwaysActive(ts)
    requires |ts| >= MaxCycles
    ensures Settled(Run(s, ts))
  {
    var t := ts[0];
    var s1 := Step(s, t.motion, t.dispAdj, t.rotAdj, t.draws);
    DampedAimsAtRest(s, t.motion, t.dispAdj, t.rotAdj, t.draws);
    var n := s1.cycles;
    var c, e := ts[1..1 + n], ts[1 + n..];
    assert ts[1..] == c + e;
    assert Run(s, ts) == Run(s1, ts[1..]);
    RunAppend(s1, c, e);
    RunToEnd(s1, c);
    SettledStays(Run(s1, c), e);
  }

  // ---------------------------------------------------------------- bounds and hue

  function Abs(v: real): real {
    if v < 0.0 then -v else v
  }

  /** Offsets and rotation, now and at the end of the current segment, stay
      within the draw ranges: |offset| <= 0.5 and |rotation| <= PI / 4. */
  predicate Within(s: Stone) {
    Abs(s.xOffset) <= 0.5 && Abs(s.yOffset) <= 0.5 && Abs(s.rotation) <= QuarterPi &&
    Abs(Aim(s).xOffset) <= 0.5 && Abs(Aim(s).yOffset) <= 0.5 && Abs(Aim(s).rotation) <= QuarterPi
  }

  /** A factor in [0, 1] does not enlarge a value. */
  lemma ScaleDown(p: real, v: real, b: real)
    requires 0.0 <= p <= 1.0 && Abs(v) <= b
    ensures Abs(p * v) <= b
  {
    if v >= 0.0 {
      assert (1.0 - p) * v >= 0.0;
    } else {
      assert (1.0 - p) * -v >= 0.0;
    }
  }

  /** A point one step along a segment lies between its start and its end. */
  lemma StepBetween(o: real, v: real, n: nat, b: real)
    requires n > 0 && Abs(o) <= b && Abs(o + Repeat(n, v)) <= b
    ensures Abs(o + v) <= b
  {
    RepeatSign(n - 1, v);
  }

  /** With adjustments in [0, 1], a stone of the grid's rows whose pose and
      aim are within the draw ranges keeps both within them for one tick. */
  lemma StepWithin(s: Stone, motion: real, dispAdj: real, rotAdj: real, d: Draws)
    requires ValidDraws(d) && Within(s)
    requires 0.0 <= s.y <= Rows as real
    requires 0.0 <= dispAdj <= 1.0 && 0.0 <= rotAdj <= 1.0
    ensures Within(Step(s, motion, dispAdj, rotAdj, d))
  {
    var r := Step(s, motion, dispAdj, rotAdj, d);
    if s.cycles > 0 {
      CoastKeepsAim(s, motion, dispAdj, rotAdj, d);
      StepBetween(s.xOffset, s.xVelocity, s.cycles, 0.5);
      StepBetween(s.yOffset, s.yVelocity, s.cycles, 0.5);
      StepBetween(s.rotation, s.rotVelocity, s.cycles, QuarterPi);
    } else if d.roll <= motion {
      ActiveAimsAtTarget(s, motion, dispAdj, rotAdj, d);
      TargetWithin(s, dispAdj, rotAdj, d);
    } else {
      IdleAimsAtPose(s, motion, dispAdj, rotAdj, d);
    }
  }

  /** With adjustments in [0, 1] a target of the grid's rows lies within the
      draw ranges. */
  lemma TargetWithin(s: Stone, dispAdj: real, rotAdj: real, d: Draws)
    requires ValidDraws(d) && 0.0 <= s.y <= Rows as real
    requires 0.0 <= dispAdj <= 1.0 && 0.0 <= rotAdj <= 1.0
    ensures Abs(Target(s, dispAdj, rotAdj, d).xOffset) <= 0.5
    ensures Abs(Target(s, dispAdj, rotAdj, d).yOffset) <= 0.5
    ensures Abs(Target(s, dispAdj, rotAdj, d).rotation) <= QuarterPi
  {
    var depth := Depth(s);
    var t := Target(s, dispAdj, rotAdj, d);
    assert 0.0 <= depth <= 1.0;
    var dx, dy, dr := depth * dispAdj * d.xDraw, depth * dispAdj * d.yDraw, depth * rotAdj * d.rotDraw;
    assert t == Pose(dx, dy, dr);
    assert Abs(dx) <= 0.5 by {
      ScaledDrawWithin(depth, dispAdj, d.xDraw, 0.5);
    }
    assert Abs(dy) <= 0.5 by {
      ScaledDrawWithin(depth, dispAdj, d.yDraw, 0.5);
    }
    assert Abs(dr) <= QuarterPi by {
      ScaledDrawWithin(depth, rotAdj, d.rotDraw, QuarterPi);
    }
  }

  /** A draw scaled by a depth factor and an adjustment, both in [0, 1],
      stays within the draw's bound. */
  lemma ScaledDrawWithin(depth: real, adj: real, draw: real, b: real)
    requires 0.0 <= depth <= 1.0 && 0.0 <= adj <= 1.0 && Abs(draw) <= b
    ensures Abs(depth * adj * draw) <= b
  {
    ScaleDown(depth, adj, 1.0);
    ScaleDown(depth * adj, draw, b);
  }

  /** The normalised deviation |orig| / max: never negative, and below 1
      exactly when |orig| is below max. */
  function AbsNormalize(orig: real, max: real): (r: real)
    requires max > 0.0
    ensures r >= 0.0
    ensures r < 1.0 <==> Abs(orig) < max
    ensures r <= 1.0 <==> Abs(orig) <= max
  {
    DivBelowOne(Abs(orig), max);
    Abs(orig) / max
  }

  lemma DivBelowOne(a: real, m: real)
    requires m > 0.0 && a >= 0.0
    ensures a / m >= 0.0
    ensures a / m < 1.0 <==> a < m
    ensures a / m <= 1.0 <==> a <= m
  {
    var q := a / m;
    assert q * m == a;
    if q < 1.0 {
      MulPos(1.0 - q, m);
    } else {
      MulNonneg(q - 1.0, m);
    }
  }

  lemma MulPos(x: real, y: real)
    requires x > 0.0 && y > 0.0
    ensures x * y > 0.0
  {
  }

  lemma MulNonneg(x: real, y: real)
    requires x >= 0.0 && y >= 0.0
    ensures x * y >= 0.0
  {
  }

  /** The hue a stone is drawn with: the mean of its five normalised
      deviations (column, row, rotation, x and y offset). */
  function Hue(s: Stone): (h: real)
    ensures h >= 0.0
  {
    (AbsNormalize(s.x, Cols as real) + AbsNormalize(s.y, Rows as real) +
     AbsNormalize(s.rotation, QuarterPi) + AbsNormalize(s.xOffset, 0.5) +
     AbsNormalize(s.yOffset, 0.5)) / 5.0
  }

  /** A stone of the grid whose offsets are within 0.5 and whose rotation is
      within PI/4 gets a hue in [0, 1), so the unclamped sum stays a valid hue. */
  lemma HueBelowOne(s: Stone)
    requires 0.0 <= s.x < Cols as real && 0.0 <= s.y < Rows as real
    requires Abs(s.xOffset) <= 0.5 && Abs(s.yOffset) <= 0.5 && Abs(s.rotation) <= QuarterPi
    ensures 0.0 <= Hue(s) < 1.0
  {
    assert AbsNormalize(s.x, Cols as real) < 1.0;
    assert AbsNormalize(s.y, Rows as real) < 1.0;
    assert AbsNormalize(s.rotation, QuarterPi) <= 1.0;
    assert AbsNormalize(s.xOffset, 0.5) <= 1.0;
    assert AbsNormalize(s.yOffset, 0.5) <= 1.0;
  }

  /** The hue is 0 exactly for the stone at the origin cell in the rest pose. */
  lemma HueZero(s: Stone)
    ensures Hue(s) == 0.0 <==> s.x == 0.0 && s.y == 0.0 && PoseOf(s) == Rest
  {
    if Hue(s) == 0.0 {
      assert Abs(s.x) / Cols as real == 0.0;
      assert Abs(s.y) / Rows as real == 0.0;
      assert Abs(s.rotation) / QuarterPi == 0.0;
      assert Abs(s.xOffset) / 0.5 == 0.0;
      assert Abs(s.yOffset) / 0.5 == 0.0;
    }
  }
}
