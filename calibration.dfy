/**
 * The per-servo calibration table both trackers build at start-up: one
 * pulse width in microseconds for each of the sensor's 32 columns.
 */
module Calibration {

  /** Number of sensor columns, and so of table entries. */
  const Columns := 32
  /** Pulse width for column 0, in microseconds. */
  const BasePulse := 600
  /** Pulse-width increment per column, in microseconds. */
  const PulseStep := 60

  /** `[60 * i + 600 for i in range(32)]`. */
  function Table(): (t: seq<int>)
    ensures |t| == Columns
  {
    seq(Columns, i => PulseStep * i + BasePulse)
  }

  /**
   * The table is strictly increasing from 600 us at column 0 to 2460 us at
   * column 31, so every entry lies inside the 600..2500 us servo range the
   * source comments name.
   */
  lemma TableShape()
    ensures Table()[0] == 600 && Table()[Columns - 1] == 2460
    ensures forall i, j :: 0 <= i < j < Columns ==> Table()[i] < Table()[j]
    ensures forall i :: 0 <= i < Columns ==> 600 <= Table()[i] <= 2500
  {
  }

}
