/**
 * The `Eyez` tracker: a rolling window of detected columns whose truncated
 * mean is the target, a dead-zone gate against the last commanded column,
 * and a move that sets both servo pulse widths and then de-energises both
 * pins. Frame reading and contour detection are inputs of each cycle; the
 * pigpio calls are appended to a command log.
 */
module Scanner5 {

  import opened Options
  import opened Pigpio
  import Fifo
  import Stats
  import Calibration
  import Frames

  /** Default pigpio pins of the two eye servos. */
  const DefaultRightServoPin := 18
  const DefaultLeftServoPin := 12
  /** Capacity of the smoothing window. */
  const BufferSize := 5
  /** Column the eyes are assumed to look at before the first move. */
  const StartColumn := 16
  /** A target at most this many columns from the current one is not acted on. */
  const DeadZone := 1

  /**
   * What one pass of the main loop learns before smoothing: the frame read
   * failed, or it succeeded and the contour detector reported no person or
   * a person's centroid column.
   */
  datatype Reading = ReadFailed | NoPerson | PersonAt(column: int)

  /** The movement gate of the main loop: `abs(current - target) > 1`. */
  predicate ShouldMove(current: int, target: int)
  {
    Frames.AbsDiff(current, target) > DeadZone
  }

  /** Every element of `s` is a sensor column. */
  predicate AllColumns(s: seq<int>)
  {
    forall i :: 0 <= i < |s| ==> 0 <= s[i] < Calibration.Columns
  }

  /** Pushing a sensor column onto a window of sensor columns keeps it one. */
  lemma PushKeepsColumns(buf: seq<int>, x: int)
    requires AllColumns(buf) && 0 <= x < Calibration.Columns
    ensures AllColumns(Fifo.Push(buf, x, BufferSize))
  {
    var grown := buf + [x];
    assert AllColumns(grown) by {
      forall i | 0 <= i < |grown| ensures 0 <= grown[i] < Calibration.Columns {
        if i < |buf| { assert grown[i] == buf[i]; }
      }
    }
    if |grown| > BufferSize {
      assert forall i :: 0 <= i < |grown| - 1 ==> grown[1..][i] == grown[i + 1];
    }
  }

  /** The truncated mean of sensor columns is a sensor column. */
  lemma MeanOfColumns(s: seq<int>)
    requires |s| > 0 && AllColumns(s)
    ensures 0 <= Stats.TruncMean(s) < Calibration.Columns
  {
    Stats.MeanBetween(s);
    var lo :| 0 <= lo < |s| && s[lo] == Stats.Min(s);
    var hi :| 0 <= hi < |s| && s[hi] == Stats.Max(s);
  }

  /** Smoothing a sensor column into a window of sensor columns yields a sensor-column target. */
  lemma SmoothingKeepsRange(buf: seq<int>, x: int)
    ensures AllColumns(buf) && 0 <= x < Calibration.Columns ==>
      AllColumns(Fifo.Push(buf, x, BufferSize)) &&
      0 <= Stats.TruncMean(Fifo.Push(buf, x, BufferSize)) < Calibration.Columns
  {
    if AllColumns(buf) && 0 <= x < Calibration.Columns {
      PushKeepsColumns(buf, x);
      MeanOfColumns(Fifo.Push(buf, x, BufferSize));
    }
  }

  class Eyez {
    const rightServoPin: int
    const leftServoPin: int
    /** Calibration table per servo pin. */
    const quadrants: map<int, seq<int>>

    /** Last column actually commanded to the servos. */
    var currentColumn: int
    /** The smoothing window, oldest first. */
    var positionBuffer: seq<int>
    /** Number of frames read successfully. */
    var frameCounter: nat
    /** Whether `run` has connected to pigpio (`self.pwm` exists). */
    var pwmStarted: bool

    /** Every column fed to the smoother so far, oldest first. */
    ghost var accepted: seq<int>
    /** Every pigpio command issued so far, in order. */
    ghost var log: seq<Command>

    /** Both servos map onto the shared 600 + 60*i table. */
    predicate Calibrated()
    {
      quadrants == map[rightServoPin := Calibration.Table(), leftServoPin := Calibration.Table()]
    }

    ghost predicate Valid()
      reads this
    {
      Calibrated() && positionBuffer == Fifo.LastK(accepted, BufferSize)
    }

    /** The eyes look at a sensor column and the window holds only sensor columns. */
    ghost predicate InRange()
      reads this
    {
      0 <= currentColumn < Calibration.Columns && AllColumns(positionBuffer)
    }

    constructor (rightServoPin: int, leftServoPin: int)
      ensures Valid() && InRange()
      ensures this.rightServoPin == rightServoPin && this.leftServoPin == leftServoPin
      ensures currentColumn == StartColumn && positionBuffer == [] && frameCounter == 0
      ensures !pwmStarted && accepted == [] && log == []
    {
      this.rightServoPin := rightServoPin;
      this.leftServoPin := leftServoPin;
      quadrants := map[rightServoPin := Calibration.Table(), leftServoPin := Calibration.Table()];
      currentColumn := StartColumn;
      positionBuffer := [];
      frameCounter := 0;
      pwmStarted := false;
      accepted := [];
      log := [];
    }

    /**
     * Pulse width for `column` on `servoPin`: none for a missing column or
     * one outside 0..31, else the calibration entry 600 + 60 * column.
     */
    function TranslateToQuadrant(column: Option<int>, servoPin: int): (pulse: Option<int>)
      requires Calibrated() && servoPin in quadrants
      ensures pulse.None? <==> column.None? || column.value < 0 || column.value >= Calibration.Columns
      ensures pulse.Some? ==> pulse.value == Calibration.BasePulse + Calibration.PulseStep * column.value
    {
      if column.None? || column.value < 0 || column.value >= Calibration.Columns then None
      else Some(quadrants[servoPin][column.value])
    }

    /** The commands `turn_off_servos` sends. */
    function TurnOffCommands(): seq<Command>
    {
      DeEnergise(rightServoPin) + DeEnergise(leftServoPin)
    }

    /** The commands `move_servos(target)` sends. */
    function MoveCommands(target: int): seq<Command>
      requires Calibrated()
    {
      var left := TranslateToQuadrant(Some(target), leftServoPin);
      var right := TranslateToQuadrant(Some(target), rightServoPin);
      if left.Some? && right.Some? then
        [SetServoPulsewidth(leftServoPin, left.value), SetServoPulsewidth(rightServoPin, right.value)]
        + TurnOffCommands()
      else []
    }

    /**
     * A move off the table sends nothing; a move to a sensor column sets the
     * left and then the right pulse width to 600 + 60 * target and then
     * de-energises the right and then the left pin, duty cycle before
     * frequency.
     */
    lemma MoveCommandsSequence(target: int)
      requires Calibrated()
      ensures target < 0 || target >= Calibration.Columns ==> MoveCommands(target) == []
      ensures 0 <= target < Calibration.Columns ==>
        var us := 600 + 60 * target;
        MoveCommands(target) ==
          [SetServoPulsewidth(leftServoPin, us), SetServoPulsewidth(rightServoPin, us),
           SetPwmDutycycle(rightServoPin, 0), SetPwmFrequency(rightServoPin, 0),
           SetPwmDutycycle(leftServoPin, 0), SetPwmFrequency(leftServoPin, 0)]
    {
    }

    /** The pigpio set-up at the start of `run`. */
    method Start()
      requires Valid()
      modifies this`pwmStarted, this`log
      ensures Valid() && pwmStarted
      ensures log == old(log) + Setup(rightServoPin) + Setup(leftServoPin)
    {
      pwmStarted := true;
      log := log + Setup(rightServoPin) + Setup(leftServoPin);
    }

    /**
     * `turn_off_servos`: duty cycle 0 and then frequency 0 on the right pin,
     * then the same on the left pin. `self.pwm` only exists once `run` has
     * connected, and is never None then.
     */
    method TurnOffServos()
      requires pwmStarted
      modifies this`log
      ensures log == old(log) + TurnOffCommands()
    {
      log := log + TurnOffCommands();
    }

    /** `move_servos`: command both servos to `target`, then turn them off. */
    method MoveServos(target: int)
      requires Calibrated() && pwmStarted
      modifies this`log
      ensures log == old(log) + MoveCommands(target)
    {
      var pulseWidthLeft := TranslateToQuadrant(Some(target), leftServoPin);
      var pulseWidthRight := TranslateToQuadrant(Some(target), rightServoPin);
      if pulseWidthLeft.Some? && pulseWidthRight.Some? {
        log := log + [SetServoPulsewidth(leftServoPin, pulseWidthLeft.value)];
        log := log + [SetServoPulsewidth(rightServoPin, pulseWidthRight.value)];
        TurnOffServos();
      }
    }

    /**
     * `smooth_position`: push the new column into the window, evicting the
     * oldest past five, and return the truncated mean of the window. The
     * window stays the last min(n, 5) columns fed in, and the target lies
     * between the window's smallest and largest column.
     */
    method SmoothPosition(newPosition: int) returns (target: int)
      requires Valid()
      modifies this`positionBuffer, this`accepted
      ensures Valid()
      ensures accepted == old(accepted) + [newPosition]
      ensures positionBuffer == Fifo.Push(old(positionBuffer), newPosition, BufferSize)
      ensures positionBuffer == Fifo.LastK(accepted, BufferSize) && 1 <= |positionBuffer| <= BufferSize
      ensures target == Stats.TruncMean(positionBuffer)
    {
      Fifo.PushKeepsLastK(accepted, newPosition, BufferSize);
      positionBuffer := positionBuffer + [newPosition];
      if |positionBuffer| > BufferSize {
        positionBuffer := positionBuffer[1..];
      }
      accepted := accepted + [newPosition];
      target := Stats.TruncDiv(Stats.Sum(positionBuffer), |positionBuffer|);
    }

    /**
     * The part of a loop pass after a detection: smooth it, and move the
     * servos and take the target as the current column exactly when the
     * target is more than one column away from the current one. Fed sensor
     * columns, the tracker keeps looking at a sensor column.
     */
    method Track(column: int)
      requires Valid() && pwmStarted
      modifies this`positionBuffer, this`accepted, this`currentColumn, this`log
      ensures Valid()
      ensures accepted == old(accepted) + [column]
      ensures positionBuffer == Fifo.Push(old(positionBuffer), column, BufferSize)
      ensures ShouldMove(old(currentColumn), Stats.TruncMean(positionBuffer)) ==>
        currentColumn == Stats.TruncMean(positionBuffer) && log == old(log) + MoveCommands(currentColumn)
      ensures !ShouldMove(old(currentColumn), Stats.TruncMean(positionBuffer)) ==>
        currentColumn == old(currentColumn) && log == old(log)
      ensures old(InRange()) && 0 <= column < Calibration.Columns ==> InRange()
    {
      ghost var oldBuffer := positionBuffer;
      var targetColumn := SmoothPosition(column);
      SmoothingKeepsRange(oldBuffer, column);
      if ShouldMove(currentColumn, targetColumn) {
        MoveServos(targetColumn);
        currentColumn := targetColumn;
      }
    }

    /**
     * One pass of the main loop. A failed read changes nothing. A read with
     * no person only counts the frame. A detection is also tracked.
     */
    method Step(reading: Reading)
      requires Valid() && pwmStarted
      modifies this`positionBuffer, this`accepted, this`currentColumn, this`frameCounter, this`log
      ensures Valid()
      ensures frameCounter == if reading.ReadFailed? then old(frameCounter) else old(frameCounter) + 1
      ensures !reading.PersonAt? ==>
        accepted == old(accepted) && positionBuffer == old(positionBuffer) &&
        currentColumn == old(currentColumn) && log == old(log)
      ensures reading.PersonAt? ==>
        accepted == old(accepted) + [reading.column] &&
        positionBuffer == Fifo.Push(old(positionBuffer), reading.column, BufferSize)
      ensures reading.PersonAt? && ShouldMove(old(currentColumn), Stats.TruncMean(positionBuffer)) ==>
        currentColumn == Stats.TruncMean(positionBuffer) && log == old(log) + MoveCommands(currentColumn)
      ensures reading.PersonAt? && !ShouldMove(old(currentColumn), Stats.TruncMean(positionBuffer)) ==>
        currentColumn == old(currentColumn) && log == old(log)
      ensures old(InRange()) && (reading.PersonAt? ==> 0 <= reading.column < Calibration.Columns) ==> InRange()
    {
      if reading.ReadFailed? {
        return;
      }
      frameCounter := frameCounter + 1;
      if reading.PersonAt? {
        Track(reading.column);
      }
    }
  }

  /** Every element of `s` is `v`. */
  predicate AllEqual(s: seq<int>, v: int)
  {
    forall i :: 0 <= i < |s| ==> s[i] == v
  }

  /** Feeding the column a window already agrees on keeps the window, and its mean, on it. */
  lemma PushSameColumn(buf: seq<int>, v: int)
    requires AllEqual(buf, v) && |buf| <= BufferSize
    ensures AllEqual(Fifo.Push(buf, v, BufferSize), v)
    ensures Stats.TruncMean(Fifo.Push(buf, v, BufferSize)) == v
  {
    Fifo.PushEvictsOldest(buf, v, BufferSize);
    Stats.MeanOfConstant(Fifo.Push(buf, v, BufferSize), v);
  }

  /**
   * A subject standing still at column 10 for five frames: the first
   * detection moves the eyes from the centre to column 10, and the four
   * after it leave the servos alone.
   */
  method StaticSubjectMovesOnce()
  {
    var eyez := new Eyez(DefaultRightServoPin, DefaultLeftServoPin);
    eyez.Start();
    ghost var afterStart := eyez.log;
    PushSameColumn([], 10);
    eyez.Step(PersonAt(10));
    ghost var afterMove := eyez.log;
    assert eyez.currentColumn == 10 && afterMove == afterStart + eyez.MoveCommands(10);
    var n := 1;
    while n < 5
      invariant eyez.Valid() && eyez.pwmStarted
      invariant eyez.currentColumn == 10 && eyez.log == afterMove
      invariant AllEqual(eyez.positionBuffer, 10) && |eyez.positionBuffer| <= BufferSize
    {
      PushSameColumn(eyez.positionBuffer, 10);
      eyez.Step(PersonAt(10));
      n := n + 1;
    }
    assert eyez.log == afterStart + eyez.MoveCommands(10);
  }

}
