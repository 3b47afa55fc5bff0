/**
 * Normalised thermal frames: row-major grids of 8-bit intensities, as
 * `np.uint8(cv2.normalize(...))` leaves them, and the per-pixel change
 * measures the locators apply to two of them.
 */
module Frames {

  /** A NumPy uint8 value. */
  predicate IsPixel(v: int)
  {
    0 <= v < 256
  }

  /** `g` has `h` rows of `w` uint8 pixels each. */
  predicate IsFrame(g: seq<seq<int>>, h: nat, w: nat)
  {
    |g| == h &&
    forall r :: 0 <= r < h ==> |g[r]| == w && forall c :: 0 <= c < w ==> IsPixel(g[r][c])
  }

  /**
   * `abs(curr - prev)` evaluated on two uint8 values: the subtraction wraps
   * modulo 256 and `abs` leaves an unsigned value as it is. A pixel that
   * warms by d gives d; one that cools by d gives 256 - d.
   */
  function Uint8AbsDiff(curr: int, prev: int): (d: int)
    ensures IsPixel(d)
    ensures IsPixel(curr) && IsPixel(prev) && prev <= curr ==> d == curr - prev
    ensures IsPixel(curr) && IsPixel(prev) && curr < prev ==> d == 256 - (prev - curr)
  {
    (curr - prev) % 256
  }

  /** The mathematical absolute difference |curr - prev|. */
  function AbsDiff(curr: int, prev: int): (d: int)
    ensures d >= 0 && (d == curr - prev || d == prev - curr)
  {
    if curr >= prev then curr - prev else prev - curr
  }

  /** Sensor geometry of the MLX90640: 32 columns by 24 rows. */
  const SensorWidth := 32
  const SensorHeight := 24

  /** `np.array(flat).reshape(24, 32)`: row i is flat[32*i .. 32*i + 32]. */
  function Reshape(flat: seq<int>): (g: seq<seq<int>>)
    requires |flat| == SensorHeight * SensorWidth
    ensures |g| == SensorHeight
    ensures forall i :: 0 <= i < SensorHeight ==> |g[i]| == SensorWidth
    ensures forall i, j :: 0 <= i < SensorHeight && 0 <= j < SensorWidth ==> g[i][j] == flat[SensorWidth * i + j]
  {
    seq(SensorHeight, i requires 0 <= i < SensorHeight => flat[SensorWidth * i .. SensorWidth * i + SensorWidth])
  }

}
