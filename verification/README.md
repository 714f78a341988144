# Schotter in Dafny

A model of the Schotter generative-art sketch (after Georg Nees): a grid of
22 rows by 12 columns of square "stones" that drift away from their cells and
come back. Each stone runs a small state machine. When its segment ends it
either idles for 50 to 299 ticks or picks a target offset and rotation and
heads for it in equal steps. The target is scaled by the stone's depth (its
row over 22) and by two user-adjustable factors, the displacement and rotation
adjustments. From the midpoint of the 30-second run both adjustments are 0, so
every stone settles back into its cell. While recording, every second frame
is counted and saved as `<exe>_frames/shotterNNNN.png`, up to frame 9999.
Keys toggle recording, take a snapshot and move the adjustments by 0.1.

The project has five modules, one file each:

- `Wrappers` (`wrappers.dfy`): `Option`.
- `Stones` (`stones.dfy`): the stone record, `Stone::new`, the grid-building loop, one animation step with the random draws as a parameter, runs of steps, and the hue formula. All values are reals.
- `Recording` (`recording.dfy`): the recorder's work in one tick, runs of ticks, and the zero-padded file name.
- `Controls` (`controls.dfy`): the keys and the ±0.1 adjustment steps.
- `Sketch` (`sketch.dfy`): the `Model` class:
  - the constructor builds the starting state;
  - `Update` is the per-frame update: the midpoint settle, the stone loop, the recorder and the exit;
  - `KeyPressed` is the key handler.

  It also holds lemmas about the whole grid and the second half of the run.

Random draws are inputs. A `Draws` value holds the roll compared with
`motion`, the three target draws and the cycle count for one stone. Their
ranges, each half-open, are `ValidDraws`. The outcome of creating the frames
directory is an input too (`MkdirResult`). Saving a frame is modelled as the
returned file name.

## Model

| member | source | states |
|---|---|---|
| Stones.NewStone | src/main.rs:44-63 | a new stone sits at the given grid position with zero offsets, rotation and velocities and no segment under way |
| Stones.BuildGravel | src/main.rs:93-99 | the nested loops build exactly ROWS*COLS stones in row-major order, index i holding a new stone at column i % COLS, row i / COLS |
| Stones.GridCell | src/main.rs:93-99 | in the built grid the stone at index y*COLS+x has position (x, y) and is at rest |
| Stones.GridOnGrid | src/main.rs:93-99 | every stone of the built grid lies inside the 12 by 22 grid |
| Stones.Target | src/main.rs:164-170 | the target of an active segment is the rest pose for a stone in row 0 and whenever both adjustments are 0 |
| Stones.Step | src/main.rs:155-183 | coasting adds each velocity to its offset or rotation and takes exactly one cycle off; a resample leaves the pose alone and draws a cycle count in [50, 300); an idle resample zeroes all three velocities; position never changes |
| Stones.CoastKeepsAim | src/main.rs:177-182 | a coasting step keeps the end point of the current segment |
| Stones.ActiveAimsAtTarget | src/main.rs:168-176 | velocity (target - current) / new_cycles makes the segment end exactly at the target |
| Stones.IdleAimsAtPose | src/main.rs:157-162 | an idle segment ends where the stone already is |
| Stones.Run | src/main.rs:155-183 | a run of steps keeps the stone's position and keeps the cycle count below 300 |
| Stones.RunAppend | src/main.rs:155-183 | running two tick sequences one after the other is running their concatenation |
| Stones.RunCoastingCycles | src/main.rs:177-182 | k coasting ticks take k cycles off and keep the velocities |
| Stones.RunCoasting | src/main.rs:177-182 | k coasting ticks add k times each velocity to its offset or rotation |
| Stones.ExactArrival | src/main.rs:164-182 | after an active resample and exactly new_cycles further ticks the offsets and rotation equal the sampled target and the segment is over |
| Stones.RunToEnd | src/main.rs:177-182 | coasting for all remaining cycles ends the segment at its end point |
| Stones.IdleNeverMoves | src/main.rs:157-162 | a parked stone (no velocity while a segment lasts) whose every roll exceeds motion never leaves its pose and stays parked |
| Stones.NoMotionIsIdle | src/main.rs:157 | with motion 0 a positive roll gives an idle segment; a roll of exactly 0 still gives an active one |
| Stones.DampedAimsAtRest | src/main.rs:164-170 | an active segment of a row-0 stone, or one started with both adjustments 0, ends at the rest pose |
| Stones.SettledStays | src/main.rs:150-183 | with both adjustments 0 a stone at rest with no motion stays so |
| Stones.SettleFromResample | src/main.rs:150-183 | with both adjustments 0 and active rolls, a stone at a resample is at rest with no motion within 300 ticks |
| Stones.SettleAfterMidpoint | src/main.rs:150-183 | with both adjustments 0 and active rolls, any stone is at rest with no motion after its remaining cycles plus 300 ticks |
| Stones.StepWithin | src/main.rs:155-183 | for a stone of the grid's rows, with adjustments in [0, 1], offsets within 0.5 and rotation within PI/4, now and at the segment's end, stay so for one step |
| Stones.TargetWithin | src/main.rs:164-170 | with adjustments in [0, 1] a target's offsets are within 0.5 and its rotation within PI/4 |
| Stones.AbsNormalize | src/main.rs:249-251 | abs(orig) / max is never negative, is below 1 exactly when abs(orig) < max, and is at most 1 exactly when abs(orig) <= max |
| Stones.Hue | src/main.rs:126-127 | the hue, the mean of five normalised deviations, is never negative |
| Stones.HueBelowOne | src/main.rs:126-127 | a grid stone whose offsets are within 0.5 and whose rotation is within PI/4 gets a hue in [0, 1) |
| Stones.HueZero | src/main.rs:126-127 | the hue is 0 exactly for the stone in cell (0, 0) in the rest pose |
| Recording.RecordTick | src/main.rs:185-199 | on even ticks while recording, the counter goes up by 1; past 9999 recording stops and nothing is saved, otherwise the new count is saved; otherwise nothing changes; the recorder's invariant is kept |
| Recording.RecordRunOff | src/main.rs:185 | a recorder that is off stays off and saves nothing |
| Recording.RecordRunBelow | src/main.rs:185-199 | a recorder whose count stays within 9999 saves frames curFrame+1 up to curFrame+e in order, e being the number of even ticks, and stays on |
| Recording.RecordRunCapped | src/main.rs:185-199 | a recorder whose count would pass 9999 saves frames up to 9999 in order, then stops, with the counter at 10000 |
| Recording.RecordRunCloses | src/main.rs:185-199 | over a run with e even ticks the counter ends at min(curFrame+e, 10000), recording stays on exactly when it did not pass 9999, and frames curFrame+1 to min(curFrame+e, 9999) are saved in order |
| Recording.FreshRun | src/main.rs:185-199 | a fresh recorder run over ticks 0 to t-1 saves frames 1 to (t+1)/2 and stays on |
| Recording.Pad4 | src/main.rs:190-192 | the frame number is written with exactly four decimal digits that spell it |
| Recording.FramePath | src/main.rs:190-192 | the file name is the frames directory, "/shotter", four digits spelling the frame, ".png" |
| Recording.FramePathInjective | src/main.rs:190-192 | different frames go to different files |
| Controls.Raise | src/main.rs:229-231 | Up and Right add exactly 0.1 |
| Controls.Lower | src/main.rs:232-236 | Down and Left take exactly 0.1 off a positive value and leave any other value alone |
| Controls.LowerUndoesRaise | src/main.rs:229-236 | Down after Up restores any value above -0.1 |
| Controls.RaiseUndoesLower | src/main.rs:229-236 | Up after Down restores any positive value |
| Controls.LowerOnTenths | src/main.rs:232-236 | on multiples of 0.1, Down moves one multiple down and stops at 0 |
| Controls.LowerBelowStep | src/main.rs:232-236 | a positive value below 0.1 goes negative: the guard is not a floor |
| Sketch.Model.constructor | src/main.rs:89-111 | the start state: the row-major grid at rest, motion and both adjustments 1.0, recording on at frame 0 into `<exe>_frames`, every stone in range |
| Sketch.Model.Update | src/main.rs:147-205 | from frame 900 both adjustments are 0; every stone takes exactly one Step with its draws; recorder and file name are as RecordTick and FramePath say; the sketch exits from frame 1800; the state invariant and, with adjustments in [0, 1], the range invariant are kept |
| Sketch.Model.StepGravel | src/main.rs:155-183 | stone i becomes Step of stone i with draws i, in order; stones keep their cells; with adjustments in [0, 1] they stay in range |
| Sketch.Model.RecordFrame | src/main.rs:185-200 | the recorder fields and the capture are exactly RecordTick's outcome, with the saved frame named by FramePath |
| Sketch.Model.KeyPressed | src/main.rs:207-247 | R turns recording off, or on from frame 0 unless the directory cannot be created, which panics and changes nothing; S asks for `<exe>.png`; Up/Down and Right/Left are Raise/Lower on their adjustment; nothing else changes; the adjustments stay whole tenths, so never negative |
| Sketch.StepsKeepGrid | src/main.rs:155-183 | a step of every stone keeps every stone in its cell with a segment below 300 ticks |
| Sketch.StepsWithin | src/main.rs:155-183 | with adjustments in [0, 1], a step of every stone keeps every stone in range |
| Sketch.SettledByExit | src/main.rs:150-153 | over the 901 frames from the midpoint to the exit, every stone returns to rest with no motion |

## Left out

- Window creation, the `view` drawing calls and the colour conversion. Only the hue value is modelled.
- Saving frames and snapshots. The model returns the file name; a missing window, which skips the save, is not modelled.
- `exit(0)` is modelled as the `exits` result of `Update`. The process ending is not modelled.
- Logging, `main` and the loop-mode setup.
- The random number generator. Draws are inputs. The source draws only the roll and the cycle count for an idle resample, and draws per stone in grid order. The model gives every stone one `Draws` record, so the order and number of draws are not captured.
- The executable name is a constructor input. The failure of `exe_name()` is not modelled.
- Sketch.Model.KeyPressed: creating the frames directory is an input outcome. Its effect on the file system is not modelled.
- 32-bit float arithmetic. Offsets, velocities, rotations and adjustments are reals, so exact arrival, the settle and the tenths of the adjustments hold exactly. Float drift is not modelled. PI/4 is the decimal 0.7853981633974483.
- Controls.Lower: the guard only tests `> 0`, as the code does. In reals, starting from 1.0, the adjustments stay whole tenths and never go negative. In 32-bit floats the Downs can end below 0, at a value between -0.1 and 0 that depends on the Ups pressed before. From 1.0 they stop at about -7.5e-8. The model does not capture this. The "never negative" of `Sketch.Model.KeyPressed` is therefore a statement about reals only.
- Sketch.Model.Update: the 64-bit elapsed frame count and the 32-bit frame counter are unbounded here. The recorder invariant keeps the counter at or below 10000.
- Stones are values. `Step` rebuilds a stone record where the source assigns its fields one by one in the loop.

Behaviour of the code worth noting:

- Down and Left are guarded only by `> 0`. The guard is not a floor: a positive value below 0.1 goes negative (`Controls.LowerBelowStep`).
- The recorder counts the even elapsed-frame values. A recorded run from tick 0 over T ticks saves (T+1)/2 frames, and the counter stops at 10000 when recording switches off (`Recording.RecordRunCloses`, `Recording.FreshRun`).
- With motion 0, a roll of exactly 0 still gives an active segment, because the test is `roll > motion` (`Stones.NoMotionIsIdle`).
- The hue is not clamped. It stays below 1 while offsets are within 0.5 and rotation within PI/4, which the adjustments keep while they are at most 1 (`Stones.HueBelowOne`, `Stones.StepWithin`). Raising them above 1 can push offsets past those ranges, and then the hue past 1.
