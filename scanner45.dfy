/**
 * The frame-difference tracker: each frame is cropped to its lower 18 rows,
 * compared pixel by pixel with the previous frame, and the column with the
 * most changed pixels becomes the target; the servos move whenever that
 * column differs from the one they were last sent to.
 */
module Scanner45 {

  import opened Options
  import opened Pigpio
  import Frames
  import Stats
  import Calibration

  const RightServo := 18
  const LeftServo := 12
  /** Rows dropped from the top of each frame (sky and street lights). */
  const CropRows := 6
  /** Rows left after cropping. */
  const Rows := 18
  const Width := 32
  /** Default pixel-change threshold of `detect_human_column`. */
  const DefaultThreshold := 5
  /** Column the eyes are assumed to look at before the first move. */
  const StartColumn := 16

  /** Calibration table per servo pin. */
  const Quadrants: map<int, seq<int>> :=
    map[RightServo := Calibration.Table(), LeftServo := Calibration.Table()]

  /**
   * Outcome of `translate_to_quadrant`: no pulse for a missing column, a
   * pulse width, or the IndexError that indexing the Python list raises.
   */
  datatype Lookup = NoPulse | Pulse(us: int) | IndexError

  /** Python list indexing `s[i]`, where a negative i counts from the end. */
  function PyIndex(s: seq<int>, i: int): Lookup
  {
    if 0 <= i < |s| then Pulse(s[i])
    else if -|s| <= i < 0 then Pulse(s[|s| + i])
    else IndexError
  }

  /**
   * `translate_to_quadrant`: no bounds check of its own, so a column in
   * 0..31 gives 600 + 60 * column, a column in -32..-1 wraps to the far end
   * of the table, and anything else raises.
   */
  function TranslateToQuadrant(column: Option<int>, servo: int): (r: Lookup)
    requires servo in Quadrants
    ensures r.NoPulse? <==> column.None?
    ensures column.Some? && 0 <= column.value < Width ==> r == Pulse(600 + 60 * column.value)
    ensures column.Some? && -Width <= column.value < 0 ==> r == Pulse(600 + 60 * (Width + column.value))
    ensures r.IndexError? <==> column.Some? && (column.value < -Width || column.value >= Width)
  {
    if column.None? then NoPulse else PyIndex(Quadrants[servo], column.value)
  }

  /** The commands `move_servos(pwm, target)` sends; it is only given columns Python can index. */
  function MoveCommands(target: Option<int>): seq<Command>
    requires target.Some? ==> -Width <= target.value < Width
  {
    var left := TranslateToQuadrant(target, LeftServo);
    var right := TranslateToQuadrant(target, RightServo);
    if left.Pulse? && right.Pulse? then
      [SetServoPulsewidth(RightServo, right.us), SetServoPulsewidth(LeftServo, left.us)]
      + DeEnergise(RightServo) + DeEnergise(LeftServo)
    else []
  }

  /**
   * No target sends nothing; a sensor column sets the right and then the
   * left pulse width to 600 + 60 * target and then de-energises the right
   * and then the left pin, duty cycle before frequency.
   */
  lemma MoveCommandsSequence(target: Option<int>)
    requires target.Some? ==> -Width <= target.value < Width
    ensures target.None? ==> MoveCommands(target) == []
    ensures target.Some? && 0 <= target.value < Width ==>
      var us := 600 + 60 * target.value;
      MoveCommands(target) ==
        [SetServoPulsewidth(RightServo, us), SetServoPulsewidth(LeftServo, us),
         SetPwmDutycycle(RightServo, 0), SetPwmFrequency(RightServo, 0),
         SetPwmDutycycle(LeftServo, 0), SetPwmFrequency(LeftServo, 0)]
  {
  }

  /** `parse_frame`: reshape the 768 readings to 24 x 32 and drop the top six rows. */
  function ParseFrame(frame: seq<int>): (g: seq<seq<int>>)
    requires |frame| == Frames.SensorHeight * Frames.SensorWidth
    ensures |g| == Rows
    ensures forall r :: 0 <= r < Rows ==> |g[r]| == Width
    ensures forall r, c :: 0 <= r < Rows && 0 <= c < Width ==> g[r][c] == frame[Width * (r + CropRows) + c]
  {
    Frames.Reshape(frame)[CropRows..]
  }

  /**
   * The change measured at one pixel: the wrapped uint8 difference the code
   * computes, or the absolute difference its comment describes.
   */
  function PixelChange(curr: int, prev: int, wrapped: bool): int
  {
    if wrapped then Frames.Uint8AbsDiff(curr, prev) else Frames.AbsDiff(curr, prev)
  }

  /** Both frames are cropped normalised frames. */
  predicate FramePair(prev: seq<seq<int>>, curr: seq<seq<int>>)
  {
    Frames.IsFrame(prev, Rows, Width) && Frames.IsFrame(curr, Rows, Width)
  }

  /** Rows r < n of column c whose change exceeds the threshold (`np.sum(mask, axis=0)[c]`). */
  function ChangedInColumn(prev: seq<seq<int>>, curr: seq<seq<int>>, c: nat, n: nat, threshold: int, wrapped: bool): (k: int)
    requires FramePair(prev, curr) && c < Width && n <= Rows
    ensures 0 <= k <= n
  {
    if n == 0 then 0
    else
      ChangedInColumn(prev, curr, c, n - 1, threshold, wrapped)
      + (if PixelChange(curr[n - 1][c], prev[n - 1][c], wrapped) > threshold then 1 else 0)
  }

  /** Changed-pixel count of every column. */
  function ColumnCounts(prev: seq<seq<int>>, curr: seq<seq<int>>, threshold: int, wrapped: bool): (counts: seq<int>)
    requires FramePair(prev, curr)
    ensures |counts| == Width
    ensures forall c :: 0 <= c < Width ==> counts[c] == ChangedInColumn(prev, curr, c, Rows, threshold, wrapped)
  {
    seq(Width, c requires 0 <= c < Width => ChangedInColumn(prev, curr, c, Rows, threshold, wrapped))
  }

  /**
   * `detect_human_column` as written: the frames are uint8, so the
   * difference wraps. The result is always a column, the first one with the
   * most changed pixels.
   */
  function DetectHumanColumnAsWritten(prev: seq<seq<int>>, curr: seq<seq<int>>, threshold: int): (col: int)
    requires FramePair(prev, curr)
    ensures 0 <= col < Width
    ensures forall c :: 0 <= c < Width ==>
      ChangedInColumn(prev, curr, c, Rows, threshold, true) <= ChangedInColumn(prev, curr, col, Rows, threshold, true)
    ensures forall c :: 0 <= c < col ==>
      ChangedInColumn(prev, curr, c, Rows, threshold, true) < ChangedInColumn(prev, curr, col, Rows, threshold, true)
  {
    Stats.ArgMax(ColumnCounts(prev, curr, threshold, true))
  }

  /**
   * `detect_human_column` with the absolute difference its comment
   * describes: the first column with the most pixels whose brightness moved
   * by more than the threshold, in either direction.
   */
  function DetectHumanColumn(prev: seq<seq<int>>, curr: seq<seq<int>>, threshold: int): (col: int)
    requires FramePair(prev, curr)
    ensures 0 <= col < Width
    ensures forall c :: 0 <= c < Width ==>
      ChangedInColumn(prev, curr, c, Rows, threshold, false) <= ChangedInColumn(prev, curr, col, Rows, threshold, false)
    ensures forall c :: 0 <= c < col ==>
      ChangedInColumn(prev, curr, c, Rows, threshold, false) < ChangedInColumn(prev, curr, col, Rows, threshold, false)
  {
    Stats.ArgMax(ColumnCounts(prev, curr, threshold, false))
  }

  /** A column in which no row changes by more than the threshold counts zero. */
  lemma {:induction false} QuietColumnCountsZero(prev: seq<seq<int>>, curr: seq<seq<int>>, c: nat, n: nat, threshold: int, wrapped: bool)
    requires FramePair(prev, curr) && c < Width && n <= Rows
    requires forall r :: 0 <= r < n ==> PixelChange(curr[r][c], prev[r][c], wrapped) <= threshold
    ensures ChangedInColumn(prev, curr, c, n, threshold, wrapped) == 0
  {
    if n > 0 {
      QuietColumnCountsZero(prev, curr, c, n - 1, threshold, wrapped);
    }
  }

  /** A column with a changed pixel in one of its first n rows counts at least one. */
  lemma {:induction false} ActiveColumnCountsPositive(prev: seq<seq<int>>, curr: seq<seq<int>>, c: nat, n: nat, threshold: int, wrapped: bool, row: nat)
    requires FramePair(prev, curr) && c < Width && n <= Rows
    requires row < n && PixelChange(curr[row][c], prev[row][c], wrapped) > threshold
    ensures ChangedInColumn(prev, curr, c, n, threshold, wrapped) >= 1
  {
    if row < n - 1 {
      ActiveColumnCountsPositive(prev, curr, c, n - 1, threshold, wrapped, row);
    }
  }

  /**
   * When no pixel changes by more than the threshold, every column counts
   * zero and the locator reports column 0; it never reports "no person".
   */
  lemma NoChangeGivesColumnZero(prev: seq<seq<int>>, curr: seq<seq<int>>, threshold: int, wrapped: bool)
    requires FramePair(prev, curr)
    requires forall r, c :: 0 <= r < Rows && 0 <= c < Width ==> PixelChange(curr[r][c], prev[r][c], wrapped) <= threshold
    ensures Stats.ArgMax(ColumnCounts(prev, curr, threshold, wrapped)) == 0
  {
    var counts := ColumnCounts(prev, curr, threshold, wrapped);
    forall c | 0 <= c < Width ensures counts[c] == 0 {
      QuietColumnCountsZero(prev, curr, c, Rows, threshold, wrapped);
    }
    Stats.ArgMaxOfConstant(counts, 0);
  }

  /** Two identical frames give column 0, as written and corrected. */
  lemma IdenticalFramesGiveColumnZero(f: seq<seq<int>>, threshold: int)
    requires FramePair(f, f) && threshold >= 0
    ensures DetectHumanColumnAsWritten(f, f, threshold) == 0
    ensures DetectHumanColumn(f, f, threshold) == 0
  {
    NoChangeGivesColumnZero(f, f, threshold, true);
    NoChangeGivesColumnZero(f, f, threshold, false);
  }

  /** The corrected count does not depend on which frame came first. */
  lemma {:induction false} ChangedInColumnSymmetric(prev: seq<seq<int>>, curr: seq<seq<int>>, c: nat, n: nat, threshold: int)
    requires FramePair(prev, curr) && c < Width && n <= Rows
    ensures ChangedInColumn(prev, curr, c, n, threshold, false) == ChangedInColumn(curr, prev, c, n, threshold, false)
  {
    if n > 0 {
      ChangedInColumnSymmetric(prev, curr, c, n - 1, threshold);
    }
  }

  /** The corrected locator reports the same column with the frames swapped. */
  lemma DetectHumanColumnSymmetric(prev: seq<seq<int>>, curr: seq<seq<int>>, threshold: int)
    requires FramePair(prev, curr)
    ensures DetectHumanColumn(prev, curr, threshold) == DetectHumanColumn(curr, prev, threshold)
  {
    forall c | 0 <= c < Width
      ensures ColumnCounts(prev, curr, threshold, false)[c] == ColumnCounts(curr, prev, threshold, false)[c]
    {
      ChangedInColumnSymmetric(prev, curr, c, Rows, threshold);
    }
    assert ColumnCounts(prev, curr, threshold, false) == ColumnCounts(curr, prev, threshold, false);
  }

  /**
   * The wrap makes the code as written direction-dependent: if one pixel of
   * an otherwise unchanged frame cools by a single level, the code reports
   * that pixel's column (the wrapped difference is 255), while the absolute
   * difference stays under the default threshold and gives column 0.
   */
  lemma CoolingPixelMisleadsAsWritten(prev: seq<seq<int>>, curr: seq<seq<int>>, row: nat, col: nat)
    requires FramePair(prev, curr) && row < Rows && col < Width
    requires prev[row][col] >= 1 && curr[row][col] == prev[row][col] - 1
    requires forall r, c :: 0 <= r < Rows && 0 <= c < Width && (r != row || c != col) ==> curr[r][c] == prev[r][c]
    ensures DetectHumanColumnAsWritten(prev, curr, DefaultThreshold) == col
    ensures DetectHumanColumn(prev, curr, DefaultThreshold) == 0
  {
    var counts := ColumnCounts(prev, curr, DefaultThreshold, true);
    forall c | 0 <= c < Width && c != col ensures counts[c] == 0 {
      QuietColumnCountsZero(prev, curr, c, Rows, DefaultThreshold, true);
    }
    assert PixelChange(curr[row][col], prev[row][col], true) == 255;
    ActiveColumnCountsPositive(prev, curr, col, Rows, DefaultThreshold, true, row);
    Stats.ArgMaxUnique(counts, col);
    NoChangeGivesColumnZero(prev, curr, DefaultThreshold, false);
  }

  /** The locator a tracker runs: as written when `wrapped`, corrected otherwise. */
  function Locate(prev: seq<seq<int>>, curr: seq<seq<int>>, threshold: int, wrapped: bool): int
    requires FramePair(prev, curr)
  {
    if wrapped then DetectHumanColumnAsWritten(prev, curr, threshold) else DetectHumanColumn(prev, curr, threshold)
  }

  /**
   * Where no pixel of a column cooled, the wrapped and the absolute change
   * agree at every pixel, so the column's two counts agree.
   */
  lemma {:induction false} WarmingColumnCountsAgree(prev: seq<seq<int>>, curr: seq<seq<int>>, c: nat, n: nat, threshold: int)
    requires FramePair(prev, curr) && c < Width && n <= Rows
    requires forall r :: 0 <= r < n ==> prev[r][c] <= curr[r][c]
    ensures ChangedInColumn(prev, curr, c, n, threshold, true) == ChangedInColumn(prev, curr, c, n, threshold, false)
  {
    if n > 0 {
      WarmingColumnCountsAgree(prev, curr, c, n - 1, threshold);
    }
  }

  /**
   * On the first cycle the previous frame is all zeros, so no pixel can
   * have cooled and the locator as written reports the same column as the
   * corrected one.
   */
  lemma FirstCycleAgrees(prev: seq<seq<int>>, curr: seq<seq<int>>, threshold: int)
    requires FramePair(prev, curr)
    requires forall r, c :: 0 <= r < Rows && 0 <= c < Width ==> prev[r][c] == 0
    ensures DetectHumanColumnAsWritten(prev, curr, threshold) == DetectHumanColumn(prev, curr, threshold)
  {
    forall c | 0 <= c < Width
      ensures ColumnCounts(prev, curr, threshold, true)[c] == ColumnCounts(prev, curr, threshold, false)[c]
    {
      WarmingColumnCountsAgree(prev, curr, c, Rows, threshold);
    }
    assert ColumnCounts(prev, curr, threshold, true) == ColumnCounts(prev, curr, threshold, false);
  }

  /**
   * The per-cycle state of `main`. `wrapped` selects the locator: true runs
   * `detect_human_column` as written, false the corrected one.
   */
  class Tracker {
    /** Whether the locator uses the wrapped uint8 difference, as the code does. */
    const wrapped: bool
    /** Last frame read, cropped and normalised. */
    var prevFrame: seq<seq<int>>
    /** Last column the servos were sent to. */
    var currentColumn: int
    /** Number of debug frames saved, one per move. */
    var frameCount: nat
    /** Every pigpio command issued so far, in order. */
    ghost var log: seq<Command>

    ghost predicate Valid()
      reads this
    {
      Frames.IsFrame(prevFrame, Rows, Width) && 0 <= currentColumn < Width
    }

    /** The set-up of `main`: servo pins, a zero previous frame, column 16. */
    constructor (wrapped: bool)
      ensures this.wrapped == wrapped && Valid()
      ensures forall r, c :: 0 <= r < Rows && 0 <= c < Width ==> prevFrame[r][c] == 0
      ensures prevFrame == ParseFrame(seq(Frames.SensorHeight * Frames.SensorWidth, _ => 0))
      ensures currentColumn == StartColumn && frameCount == 0
      ensures log == Setup(RightServo) + Setup(LeftServo)
    {
      this.wrapped := wrapped;
      prevFrame := ParseFrame(seq(Frames.SensorHeight * Frames.SensorWidth, _ => 0));
      currentColumn := StartColumn;
      frameCount := 0;
      log := Setup(RightServo) + Setup(LeftServo);
    }

    /**
     * One pass of the main loop, given the frame read (None when `getFrame`
     * raised). A failed read changes nothing. A frame always becomes the
     * previous frame; the servos move, the saved-frame count goes up and the
     * target becomes the current column exactly when the located column
     * differs from the current one.
     */
    method Step(reading: Option<seq<seq<int>>>)
      requires Valid()
      requires reading.Some? ==> Frames.IsFrame(reading.value, Rows, Width)
      modifies this
      ensures Valid()
      ensures reading.None? ==>
        prevFrame == old(prevFrame) && currentColumn == old(currentColumn) &&
        frameCount == old(frameCount) && log == old(log)
      ensures reading.Some? ==> prevFrame == reading.value
      ensures reading.Some? && Locate(old(prevFrame), reading.value, DefaultThreshold, wrapped) != old(currentColumn) ==>
        currentColumn == Locate(old(prevFrame), reading.value, DefaultThreshold, wrapped) &&
        frameCount == old(frameCount) + 1 &&
        log == old(log) + MoveCommands(Some(currentColumn))
      ensures reading.Some? && Locate(old(prevFrame), reading.value, DefaultThreshold, wrapped) == old(currentColumn) ==>
        currentColumn == old(currentColumn) && frameCount == old(frameCount) && log == old(log)
    {
      if reading.None? {
        return;
      }
      var currentFrame := reading.value;
      var targetColumn := Locate(prevFrame, currentFrame, DefaultThreshold, wrapped);
      prevFrame := currentFrame;
      if currentColumn == targetColumn {
        return;
      }
      log := log + MoveCommands(Some(targetColumn));
      frameCount := frameCount + 1;
      currentColumn := targetColumn;
    }
  }

}
