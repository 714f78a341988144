/** The frame recorder of the Schotter sketch: while recording, every
    even tick advances the frame counter and asks for the frame to be saved
    as `<frames dir>/shotterNNNN.png`; past frame 9999 recording stops. */
module Recording {

  import opened Wrappers

  /** The highest frame number a file name is written for. */
  const LastFrame: nat := 9999

  /** The recorder's part of the sketch state. */
  datatype Recorder = Recorder(recording: bool, curFrame: nat)

  /** The counter never passes LastFrame + 1, and a recorder that is on has
      a frame number left to give. Both keep `curFrame` far inside 32 bits. */
  predicate Valid(r: Recorder) {
    r.curFrame <= LastFrame + 1 && (r.recording ==> r.curFrame <= LastFrame)
  }

  /** What one tick does to the recorder and which frame, if any, it saves. */
  datatype Outcome = Outcome(next: Recorder, capture: Option<nat>)

  /** The recorder's work in one tick with the given elapsed tick count. */
  function RecordTick(r: Recorder, elapsed: nat): (o: Outcome)
    ensures Valid(r) ==> Valid(o.next)
    ensures !r.recording || elapsed % 2 != 0 ==> o == Outcome(r, None)
    ensures r.recording && elapsed % 2 == 0 ==> o.next.curFrame == r.curFrame + 1
    ensures o.next.recording <==> r.recording && (elapsed % 2 != 0 || r.curFrame < LastFrame)
    ensures o.capture.Some? <==> r.recording && elapsed % 2 == 0 && r.curFrame < LastFrame
    ensures o.capture.Some? ==> o.capture.value == o.next.curFrame && 1 <= o.capture.value <= LastFrame
  {
    if r.recording && elapsed % 2 == 0 then
      var frame := r.curFrame + 1;
      if frame > LastFrame then Outcome(Recorder(false, frame), None)
      else Outcome(Recorder(true, frame), Some(frame))
    else
      Outcome(r, None)
  }

  /** The recorder after the ticks from, from + 1, ..., from + n - 1, and
      the frames saved along the way, in order. */
  datatype RunOutcome = RunOutcome(last: Recorder, captures: seq<nat>)

  function RecordRun(r: Recorder, from: nat, n: nat): RunOutcome
    decreases n
  {
    if n == 0 then RunOutcome(r, [])
    else
      var o := RecordTick(r, from);
      var rest := RecordRun(o.next, from + 1, n - 1);
      if o.capture.Some? then RunOutcome(rest.last, [o.capture.value] + rest.captures)
      else rest
  }

  /** The even numbers among from, ..., from + n - 1. */
  function EvenTicks(from: nat, n: nat): nat
    decreases n
  {
    if n == 0 then 0
    else (if from % 2 == 0 then 1 else 0) + EvenTicks(from + 1, n - 1)
  }

  lemma {:induction false} EvenTicksCount(from: nat, n: nat)
    ensures EvenTicks(from, n) == (from + n + 1) / 2 - (from + 1) / 2
    decreases n
  {
    if n > 0 {
      EvenTicksCount(from + 1, n - 1);
    }
  }

  /** The numbers lo, lo + 1, ..., hi - 1. */
  function Interval(lo: nat, hi: nat): (s: seq<nat>)
    ensures |s| == if lo <= hi then hi - lo else 0
    decreases hi - lo
  {
    if lo >= hi then [] else [lo] + Interval(lo + 1, hi)
  }

  /** Position i of Interval(lo, hi) holds lo + i. */
  lemma {:induction false} IntervalAt(lo: nat, hi: nat, i: nat)
    requires lo + i < hi
    ensures Interval(lo, hi)[i] == lo + i
    decreases i
  {
    if i > 0 {
      IntervalAt(lo + 1, hi, i - 1);
    }
  }

  function Min(a: nat, b: nat): nat {
    if a <= b then a else b
  }

  /** A recorder that is off stays off and saves nothing. */
  lemma {:induction false} RecordRunOff(r: Recorder, from: nat, n: nat)
    requires !r.recording
    ensures RecordRun(r, from, n) == RunOutcome(r, [])
    decreases n
  {
    if n > 0 {
      RecordRunOff(r, from + 1, n - 1);
    }
  }

  /** A recorder that is on and whose count stays within LastFrame over
      the run counts the e even ticks and saves frames curFrame + 1, ...,
      curFrame + e in order, and is still on. */
  lemma {:induction false} RecordRunBelow(r: Recorder, from: nat, n: nat)
    requires r.recording && r.curFrame + EvenTicks(from, n) <= LastFrame
    ensures var e := EvenTicks(from, n);
      RecordRun(r, from, n) ==
      RunOutcome(Recorder(true, r.curFrame + e), Interval(r.curFrame + 1, r.curFrame + e + 1))
    decreases n
  {
    if n > 0 {
      var t := RecordTick(r, from);
      if from % 2 != 0 {
        RecordRunBelow(r, from + 1, n - 1);
      } else {
        RecordRunBelow(t.next, from + 1, n - 1);
        var hi := r.curFrame + EvenTicks(from, n) + 1;
        assert Interval(r.curFrame + 1, hi) == [r.curFrame + 1] + Interval(r.curFrame + 2, hi);
      }
    }
  }

  /** A recorder that is on and whose count would pass LastFrame during the
      run saves frames curFrame + 1, ..., LastFrame in order and ends off,
      with the counter at LastFrame + 1. */
  lemma {:induction false} RecordRunCapped(r: Recorder, from: nat, n: nat)
    requires Valid(r) && r.recording && r.curFrame + EvenTicks(from, n) > LastFrame
    ensures RecordRun(r, from, n) ==
      RunOutcome(Recorder(false, LastFrame + 1), Interval(r.curFrame + 1, LastFrame + 1))
    decreases n
  {
    var t := RecordTick(r, from);
    if from % 2 != 0 {
      RecordRunCapped(r, from + 1, n - 1);
    } else if r.curFrame < LastFrame {
      RecordRunCapped(t.next, from + 1, n - 1);
      assert Interval(r.curFrame + 1, LastFrame + 1) == [r.curFrame + 1] + Interval(r.curFrame + 2, LastFrame + 1);
    } else {
      RecordRunOff(t.next, from + 1, n - 1);
    }
  }

  /** Both cases at once: over a run with e even ticks a recorder that is on
      ends with the counter at min(curFrame + e, LastFrame + 1), still on
      exactly when the counter did not pass LastFrame, having saved frames
      curFrame + 1 up to min(curFrame + e, LastFrame) in order. */
  lemma RecordRunCloses(r: Recorder, from: nat, n: nat)
    requires Valid(r) && r.recording
    ensures var e := EvenTicks(from, n);
      var o := RecordRun(r, from, n);
      o.last.curFrame == Min(r.curFrame + e, LastFrame + 1) &&
      o.last.recording == (r.curFrame + e <= LastFrame) &&
      o.captures == Interval(r.curFrame + 1, Min(r.curFrame + e, LastFrame) + 1)
  {
    if r.curFrame + EvenTicks(from, n) <= LastFrame {
      RecordRunBelow(r, from, n);
    } else {
      RecordRunCapped(r, from, n);
    }
  }

  /** A recorder started fresh (on, counter 0) and run over the ticks
      0, ..., t - 1 saves frames 1 to (t + 1) / 2 in order and is still on,
      as long as that count stays within LastFrame; for the sketch's 1801
      ticks that is frames 1 to 901. */
  lemma FreshRun(t: nat)
    requires (t + 1) / 2 <= LastFrame
    ensures RecordRun(Recorder(true, 0), 0, t) ==
      RunOutcome(Recorder(true, (t + 1) / 2), Interval(1, (t + 1) / 2 + 1))
  {
    EvenTicksCount(0, t);
    RecordRunBelow(Recorder(true, 0), 0, t);
  }

  // ---------------------------------------------------------------- file names

  function Digit(d: nat): char
    requires d < 10
  {
    ('0' as int + d) as char
  }

  predicate IsDigit(c: char) {
    '0' <= c <= '9'
  }

  function DigitValue(c: char): nat
    requires IsDigit(c)
  {
    c as int - '0' as int
  }

  /** The number a string of decimal digits spells. */
  function DecimalValue(s: string): nat
    requires forall i | 0 <= i < |s| :: IsDigit(s[i])
  {
    if s == [] then 0
    else 10 * DecimalValue(s[..|s| - 1]) + DigitValue(s[|s| - 1])
  }

  /** The frame number written with four digits, zero-padded on the left. */
  function Pad4(n: nat): (s: string)
    requires n <= LastFrame
    ensures |s| == 4 && forall i | 0 <= i < 4 :: IsDigit(s[i])
    ensures DecimalValue(s) == n
  {
    var tens := n / 10;
    var hundreds := tens / 10;
    var thousands := hundreds / 10;
    var s := [Digit(thousands), Digit(hundreds % 10), Digit(tens % 10), Digit(n % 10)];
    FourDigits(s);
    s
  }

  /** Four digits spell thousands, hundreds, tens and units. */
  lemma FourDigits(s: string)
    requires |s| == 4 && forall i | 0 <= i < 4 :: IsDigit(s[i])
    ensures DecimalValue(s) ==
      10 * (10 * (10 * DigitValue(s[0]) + DigitValue(s[1])) + DigitValue(s[2])) + DigitValue(s[3])
  {
    assert DecimalValue(s[..1]) == DigitValue(s[0]) by {
      assert s[..1][..0] == [];
    }
    assert DecimalValue(s[..2]) == 10 * DecimalValue(s[..1]) + DigitValue(s[1]) by {
      assert s[..2][..1] == s[..1];
    }
    assert DecimalValue(s[..3]) == 10 * DecimalValue(s[..2]) + DigitValue(s[2]) by {
      assert s[..3][..2] == s[..2];
    }
    assert s[..3] == s[..|s| - 1];
  }

  /** The file a recorded frame is saved to. */
  function FramePath(dir: string, frame: nat): (p: string)
    requires frame <= LastFrame
    ensures |p| == |dir| + 16 && p[..|dir|] == dir
    ensures p[|dir|..|dir| + 8] == "/shotter" && p[|dir| + 12..] == ".png"
    ensures var digits := p[|dir| + 8..|dir| + 12];
      (forall i | 0 <= i < 4 :: IsDigit(digits[i])) && DecimalValue(digits) == frame
  {
    var p := dir + "/shotter" + Pad4(frame) + ".png";
    assert p[|dir| + 8..|dir| + 12] == Pad4(frame);
    p
  }

  /** Different frames go to different files. */
  lemma FramePathInjective(dir: string, f: nat, g: nat)
    requires f <= LastFrame && g <= LastFrame
    ensures FramePath(dir, f) == FramePath(dir, g) ==> f == g
  {
    var p, q := FramePath(dir, f), FramePath(dir, g);
    if p == q {
      assert p[|dir| + 8..|dir| + 12] == q[|dir| + 8..|dir| + 12];
    }
  }
}
